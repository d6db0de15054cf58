# SortedInt2 in Dafny

A model of `SortedInt2`, a C++ container that keeps a multiset of `int`
in a growable array in non-decreasing order. It stores three fields:
`data`, `capacity` and `used`. The class invariant (SortedInt2.cpp:4-15)
has two parts:
- `data[0..used)` holds the entries in non-decreasing order;
- the slots after the entries are "don't care" values.

The project has three modules:

- `SortedSeq` (sorted_seq.dfy) is the specification on values. The
  contents of a container are a `seq<int>`, and `Sorted`, `Count`,
  `Place`, `Without`, `RemoveAt`, `LastIndexOf`, `InsertAll` and
  `TwiceMedian` say what each operation does to it. The lemmas prove what
  the header promises about those functions:
  - each operation's effect on the multiset of entries;
  - that sortedness is kept;
  - that a sorted sequence is determined by its multiset;
  - the insert/delete round trip;
  - the median examples.
- `SortedIntegers` (sorted_int2.dfy) is the class. `SortedInt2` has an
  `array<int>` field `data` and a `nat` field `used`, plus a ghost field
  `Contents` that `Valid()` ties to `data[..used]`.
  - The capacity is `data.Length`.
  - Every member of the C++ class except findAvg and the destructor (see
    Left out) is a method or function whose contract states the new
    `Contents` (or the result) through the `SortedSeq` functions.
  - The in-place loops of the source are kept as loops on the array:
    - `ShiftUp`/`OpenGap` is the insertion shift of insert;
    - `ShiftDown` is the left shift shared by delMin, delOne and delAll;
    - `CutRun` is delAll's nested loops;
    - `LastPosition` is delOne's scan;
    - `InsertEach` is the loop of operator+= and each loop of operator+.
  - `operator==` and `operator+` are the module-level methods `Equal` and
    `Concat`.
- `AsWritten` (as_written.dfy) models two places where the source does
  not do what it documents, as written next to the corrected version
  (see Findings). `SortedIntegers` implements the corrected behaviour.

The C++ `assert`s at the head of valAt, findMin, findMax, findMed, delMin
and delMax become `requires` clauses.

## Model

| member | source | states |
|---|---|---|
| SortedIntegers.SortedInt2.Valid | SortedInt2.cpp:4-15 | the class invariant: at least one slot, `used` at most the capacity, the entries are `data[0..used)` and they are sorted; the slots after them are unconstrained |
| SortedSeq.Sorted | SortedInt2.cpp:12-13 | invariant (3): every entry is at most every later entry |
| SortedIntegers.SortedInt2.Capacity | SortedInt2.h:150 | the capacity field is the number of slots of `data` |
| SortedIntegers.DefaultCapacity | SortedInt2.h:126 | DEFAULT_CAPACITY is 1 |
| SortedSeq.Count | SortedInt2.cpp:142-151 | the number of occurrences of t, at most the length; equal to the multiset multiplicity by CountIsMultiplicity |
| SortedSeq.Place | SortedInt2.cpp:185-191 | s with x put at its insertion point, one longer; PlaceCount and PlaceSorted give its meaning |
| SortedSeq.Without | SortedInt2.h:88-94 | s with every t taken out, never longer; WithoutCount, WithoutSorted and WithoutRemovesAll give its meaning |
| SortedSeq.RemoveAt | SortedInt2.cpp:232-236 | s with the entry at i taken out, one shorter; RemoveAtCount and RemoveAtSorted give its meaning |
| SortedSeq.InsertAll | SortedInt2.cpp:264-268 | the entries after inserting each of xs in turn, as long as both together; InsertAllCount and InsertAllIsSortedUnion give its meaning |
| SortedIntegers.ClampCapacity | SortedInt2.cpp:49-56 | the capacity resize allocates is at least the request, at least `used` and at least 1, and is one of those three (the two-stage clamp of SortedInt2.cpp:24-32) |
| SortedIntegers.GrownCapacity | SortedInt2.cpp:182-183 | a full container grows to more than its capacity: twice the new capacity is three times the old plus 1 or 2 (capacity * 1.5 + 1, truncated) |
| SortedIntegers.SortedInt2.constructor | SortedInt2.h:10-21 | the new container is empty and valid; its capacity is the argument (DEFAULT_CAPACITY when omitted), or DEFAULT_CAPACITY when the argument is below 1 |
| SortedIntegers.SortedInt2.Copy | SortedInt2.cpp:74-78 | the copy has a fresh array, the source's entries and the source's capacity |
| SortedIntegers.SortedInt2.Resize | SortedInt2.cpp:49-65 | the new array has capacity ClampCapacity(request, used); `used` and the entries, in order, are unchanged |
| SortedIntegers.SortedInt2.IsEmpty | SortedInt2.cpp:85-91 | true exactly when there are no entries |
| SortedIntegers.SortedInt2.Size | SortedInt2.cpp:93-96 | the number of entries |
| SortedIntegers.SortedInt2.ValAt | SortedInt2.cpp:98-106 | for a non-empty container and 1 <= position <= size, the entry at that 1-based position |
| SortedIntegers.SortedInt2.ValAtOrdered | SortedInt2.h:36-38 | positions follow the order of values; valAt(1) is findMin and valAt(size()) is findMax |
| SortedIntegers.SortedInt2.FindMin | SortedInt2.cpp:108-113 | the result is an entry and is at most every entry |
| SortedIntegers.SortedInt2.FindMax | SortedInt2.cpp:115-120 | the result is an entry and is at least every entry |
| SortedIntegers.SortedInt2.FindMed | SortedInt2.cpp:122-130 | twice the median: it equals TwiceMedian of the entries, it is at least twice every entry of the lower half and at most twice every entry of the upper half |
| SortedIntegers.SortedInt2.FindFreq | SortedInt2.cpp:142-151 | the number of occurrences of the target among the entries |
| SortedIntegers.SortedInt2.Assign | SortedInt2.cpp:153-172 | afterwards the entries and capacity are rhs's; rhs is unchanged; the array is kept when the capacities agree and fresh otherwise; self-assignment changes nothing |
| SortedIntegers.SortedInt2.Reset | SortedInt2.cpp:174-177 | the container is empty and keeps its array |
| SortedIntegers.SortedInt2.Insert | SortedInt2.cpp:180-192 | the entries become Place(old entries, x), sorted; a full container first grows to GrownCapacity of its capacity, otherwise the array is kept |
| SortedIntegers.SortedInt2.DelMin | SortedInt2.cpp:194-207 | returns the frequency (at least 1) of the old lowest entry; the entries become the old ones with that leading run dropped, which equals removing every copy of the minimum |
| SortedIntegers.SortedInt2.DelMax | SortedInt2.cpp:209-218 | returns the frequency (at least 1) of the old highest entry; the entries become the prefix of length used - freq, which equals removing every copy of the maximum |
| SortedIntegers.SortedInt2.DelOne | SortedInt2.cpp:221-241 | true exactly when the target occurred; then the entries lose the last occurrence of the target; otherwise nothing changes |
| SortedIntegers.LastPosition | SortedInt2.cpp:223-228 | the scan of the first n slots returns the index of the last occurrence of the target, -1 when absent |
| SortedIntegers.SortedInt2.DelAll | SortedInt2.cpp:243-261 | returns the old frequency of the target; the entries become the old ones without any copy of the target; when it was absent nothing changes |
| SortedIntegers.SortedInt2.AddAll | SortedInt2.cpp:264-268 | the entries become the old ones with the addend's entries (as they were on entry, so the addend may be the container itself) inserted one by one; the container keeps its own array or gets a fresh one, never the addend's |
| SortedIntegers.Equal | SortedInt2.cpp:270-284 | true exactly when both containers hold the same entries in the same positions |
| SortedIntegers.Concat | SortedInt2.cpp:286-304 | a fresh valid container holding the entries of s1 and then those of s2, inserted one by one into an empty one |
| SortedIntegers.InsertEach | SortedInt2.cpp:292-300 | inserting src's entries in position order (the loops of operator+, and of operator+= on SortedInt2.cpp:266-267) into dst gives InsertAll(dst's entries, src's entries) |
| SortedIntegers.ShiftUp | SortedInt2.cpp:185-190 | the first n + 1 slots become Place(the first n slots, x); the slots after them are untouched |
| SortedIntegers.OpenGap | SortedInt2.cpp:186-189 | the scan stops at a slot i: the slots before it are unchanged and the one just before it is at most x; the entries from i to n - 1 are greater than x and have moved up one slot |
| SortedIntegers.ShiftDown | SortedInt2.cpp:201-204 | the first n - gap slots become the first n with the slice [lo, lo + gap) cut out; the rest is untouched |
| SortedIntegers.CutRun | SortedInt2.cpp:248-255 | on a sorted prefix with freq >= 1 copies of t, the first n - freq slots become that prefix without any t |
| SortedSeq.CountIsMultiplicity | SortedInt2.h:58-61 | the count of t is its multiplicity in the multiset of entries |
| SortedSeq.RunAt | SortedInt2.cpp:12-13 | in a sorted sequence the copies of t are one contiguous run starting after the entries below t, and everything after the run is greater than t |
| SortedSeq.WithoutCount | SortedInt2.h:88-94 | removing every t takes all copies of t out of the multiset and nothing else |
| SortedSeq.WithoutRemovesAll | SortedInt2.h:88-94 | after delAll(t), t occurs 0 times and every other value keeps its frequency |
| SortedSeq.WithoutNone | SortedInt2.h:90-94 | removing an absent t changes nothing |
| SortedSeq.WithoutSorted | SortedInt2.cpp:243-261 | on a sorted sequence, removing every t cuts out the run of t, and the result is sorted |
| SortedSeq.LeastRun | SortedInt2.cpp:198-205 | the copies of the lowest entry are the first Count entries (at least one); dropping them is removing the minimum, and stays sorted |
| SortedSeq.GreatestRun | SortedInt2.cpp:213-216 | the copies of the highest entry are the last Count entries (at least one); truncating them is removing the maximum, and stays sorted |
| SortedSeq.LastIndexOf | SortedInt2.cpp:223-228 | -1 exactly when t is absent; otherwise an index holding t with no t after it |
| SortedSeq.LastIndexOfStep | SortedInt2.cpp:224-228 | one step of the forward scan: the last occurrence in a prefix one longer is the new index when it holds t, the previous answer otherwise |
| SortedSeq.RemoveAtCount | SortedInt2.h:81-87 | removing the entry at i takes exactly one copy of it out of the multiset |
| SortedSeq.RemoveAtSorted | SortedInt2.cpp:230-237 | removing one entry keeps a sorted sequence sorted |
| SortedSeq.RemoveAnyOccurrence | SortedInt2.h:84-85 | in a sorted sequence, removing any occurrence of t (the first, as documented) gives the same as removing the last (as coded) |
| SortedSeq.RemoveLastCount | SortedInt2.h:81-87 | removing the last occurrence of a present t takes one copy of t out |
| SortedSeq.InsertionPoint | SortedInt2.cpp:186-190 | where insert's backward scan stops: every later entry is greater than x and the entry before it is at most x |
| SortedSeq.InsertionPointUnique | SortedInt2.cpp:186-190 | that stopping condition determines the slot uniquely |
| SortedSeq.PlaceCount | SortedInt2.h:67-70 | insert adds exactly one copy of the new value to the multiset |
| SortedSeq.PlaceSorted | SortedInt2.cpp:180-192 | insert keeps the entries sorted |
| SortedSeq.InsertAllCount | SortedInt2.h:95-97 | inserting a batch gives the union of the multisets |
| SortedSeq.InsertAllSorted | SortedInt2.cpp:264-268 | inserting a batch keeps the entries sorted |
| SortedSeq.InsertAllIsSortedUnion | SortedInt2.h:111-114 | a batch insert equals every sorted sequence holding the union of the entries |
| SortedSeq.InsertAllCommutes | SortedInt2.cpp:286-304 | s1 + s2 and s2 + s1 hold the same sequence |
| SortedSeq.InsertAllRebuilds | SortedInt2.h:111-114 | inserting a sorted sequence into an empty container rebuilds it |
| SortedSeq.SelfAppendExample | SortedInt2.h:95-99 | adding {1, 3, 5} to itself gives {1, 1, 3, 3, 5, 5} |
| SortedSeq.SortedUnique | SortedInt2.cpp:12-13 | two sorted sequences with the same multiset are equal |
| SortedSeq.SortedEqualIff | SortedInt2.h:101-108 | for sorted contents, equality position by position holds exactly when the multisets agree |
| SortedSeq.InsertDeleteRoundTrip | SortedInt2.h:67-87 | removing the last x from the sorted sequence of s plus x gives s |
| SortedSeq.PlaceThenRemove | SortedInt2.h:67-87 | insert(x) followed by delOne(x) restores the entries |
| SortedSeq.TwiceMedian | SortedInt2.h:48-51 | for an odd count, twice the middle entry |
| SortedSeq.MedianSplits | SortedInt2.h:45-54 | twice the median is at least twice each entry of the lower half and at most twice each entry of the upper half, and the halves have equal size |
| SortedSeq.MedianExamples | SortedInt2.h:52-54 | the median of {1 2 3 4 5} is 3 and of {1 2 3 4 5 6} is 3.5 (as twice the median: 6 and 7) |
| AsWritten.ConstructAsWritten | SortedInt2.cpp:67-72 | as written: an argument below 1 gives DEFAULT_CAPACITY (one) slots but leaves the capacity field at the argument, which is inconsistent; a valid argument agrees with the documented constructor |
| AsWritten.ConstructCorrected | SortedInt2.h:19-21 | as documented: consistent bookkeeping, empty, capacity the argument or DEFAULT_CAPACITY |
| AsWritten.InsertAsWritten | SortedInt2.cpp:180-192 | an insert succeeds exactly when the container grows or a slot is free, and adds one entry |
| AsWritten.InsertTimes | SortedInt2.cpp:180-192 | n successful inserts add n entries |
| AsWritten.NegativeCapacityOverflows | SortedInt2.cpp:67-72 | after construction with a negative capacity the first insert succeeds and the second writes past the array |
| AsWritten.InsertKeepsConsistent | SortedInt2.cpp:180-192 | with consistent bookkeeping an insert always stays inside the array and keeps it consistent |
| AsWritten.CorrectedNeverOverflows | SortedInt2.h:19-21 | after the corrected constructor any number of inserts stays inside the array |
| AsWritten.ShiftAsWritten | SortedInt2.cpp:232-235 | the shift as written keeps the array length whenever it stays in bounds |
| AsWritten.FullArrayOverread | SortedInt2.cpp:232-235 | on a full array the shift reads past the end, whichever entry is removed |
| AsWritten.OverreadExample | SortedInt2.cpp:232-235 | delOne(7) on a full one-slot container holding 7 reads data[1] |
| AsWritten.SpareSlotShift | SortedInt2.cpp:232-235 | with a spare slot the shift as written stays in bounds and removes the entry |
| AsWritten.ShiftCorrected | SortedInt2.cpp:232-235 | the corrected shift, stopping at used - 1, keeps the array length |
| AsWritten.CorrectedShiftRemoves | SortedInt2.cpp:232-235 | the corrected shift removes the entry at posi from the first used slots, even on a full array |

## Left out

- findAvg (SortedInt2.cpp:132-140) is not modelled: it is a floating-point sum and division.
- SortedIntegers.SortedInt2.FindMed: returns twice the median as an exact integer instead of the `double` the source computes. It does not model the 32-bit overflow of the sum on SortedInt2.cpp:127.
- Integers are unbounded. The 32-bit width of the entries, of `used` and of the capacity computation is not modelled.
- Memory management is not modelled: `new`/`delete[]`, the destructor (SortedInt2.cpp:80-83) and the commented-out deletes. A new Dafny array replaces an allocation, and the old one is simply dropped.
- The separate `capacity` field is not a field of the model. The capacity is `data.Length`, which is what the class invariant intends. Where the two disagree in the source is the first finding below.
- SortedIntegers.SortedInt2.DelOne: removes the last occurrence, as the code does. The header says the first (SortedInt2.h:84-85). For a sorted sequence of integers both give the same result (`SortedSeq.RemoveAnyOccurrence`).
- SortedIntegers.SortedInt2.DelOne: its shift stops at `used - 1` instead of reading `data[used]`. This is the second finding below.
- SortedIntegers.SortedInt2.AddAll: the pass-by-value of the addend is modelled as a copy made with the copy constructor on entry. C++ copy elision and aliasing mechanics are not modelled.
- The `assert` aborts in the source become preconditions. The abort itself is not modelled.

## Findings

| source | as written | input that shows it | evidently intended | confidence | as-written member | corrected member |
|---|---|---|---|---|---|---|
| SortedInt2.cpp:67-72 | the initialiser list stores `init_capacity` in `capacity` before the argument is raised to DEFAULT_CAPACITY, so for an argument below 1 the field and the array length disagree; for a negative argument `used == capacity` never holds, the array never grows, and the second insert writes `data[1]` of a one-slot array | `SortedInt2 s(-5); s.insert(1); s.insert(2);` | the capacity field is set to DEFAULT_CAPACITY too, as SortedInt2.h:19-21 documents | high; not executed | AsWritten.NegativeCapacityOverflows | AsWritten.CorrectedNeverOverflows |
| SortedInt2.cpp:232-235 | delOne's shift loop runs while `i < used` and reads `data[i + 1]`, so its last step reads `data[used]`, one past the end when the array is full | a container of capacity 1 holding 7, then `delOne(7)` | the loop stops at `used - 1`, reading only entries | high; not executed | AsWritten.FullArrayOverread | AsWritten.CorrectedShiftRemoves |
