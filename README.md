# CatVector: a verified model of `lni::vector<T>`

`lni::vector<T>` is a header-only dynamic array meant as a faster replacement for
`std::vector`. A vector owns a heap buffer `arr`, a capacity `rsrv_sz` and a size
`vec_sz`. The live elements are the first `vec_sz` slots of the buffer. The vector
grows by a factor of four: a full `push_back` quadruples the capacity, and the
count, range and list inserts and the assignments reallocate to `4n` when they
need `n` slots.  `reserve(n)` and `resize(n)` reallocate to exactly `n`, and
`shrink_to_fit` to the size. Insertion and erasure shift
the live suffix with `memmove`.

The model has these parts:

- `CatVector` (vector.dfy) holds the class `Vector<T>`.
  - Its fields are the buffer `arr`, an `array<T>` whose length is the capacity, and `size`.
  - `Contents()` is the ghost view `arr[..size]` of the live elements.
  - Every constructor, assignment, accessor and modifier is a constructor, method or function of the class.
  - Each mutator is proved against a function of the old contents.
  - It also holds the comparison `compare` behind `<`, `<=`, `>` and `>=`, instantiated with `int` elements.
- `SeqOps` (sequences.dfy) holds the specification functions of the mutators.
  - `Inserted` puts a block in front of a position.
  - `Erased` removes a half-open range.
  - `Repeat` makes `n` copies of a value.
  - It also holds the round-trip lemmas between them.
- `Growth` (growth.dfy) holds the capacity policy on plain numbers.
  - It contains the growth targets of `ensure_capacity`, `reserve`/`resize` and `push_back`/`insert`.
  - It also bounds the reallocations a run of `push_back`s performs.
- `Ordering` (ordering.dfy) holds `compare`'s scan as a recursive function.
  - It proves that the scan is decided at the first difference.
  - `<` is proved equal to the textbook lexicographic order, `<=` to "less or equal", and `>`/`>=` to the swapped forms.
  - Trichotomy is proved.
- `Scenarios` (scenarios.dfy) holds the insert and assign examples of the repository's driver, a comparison example of the model's own, and round trips on a `Vector`.
- `Findings` (findings.dfy) holds three defects of the source as written (see "Findings").

Modelling choices:

- Iterators and `const_iterator`s are indices into the buffer.
- A vector that was moved from has a null buffer and capacity 0. It is modelled by a buffer of length 0.
- Library bulk copies and moves are Dafny `forall` statements: `memcpy`, `memmove`, `std::copy`, `std::fill` and `uninitialized_*`. A `forall` statement assigns all its targets at once, so the overlapping shift behaves as `memmove` does.
- The source's own `for` loops are `while` loops with invariants. These are the fills in `insert(pos, cnt, val)`, the range and list inserts, and `resize(n, c)`.
- The range and initializer-list overloads receive the elements as a `seq<T>`.
- Element construction is left out: `emplace_back` and `emplace` receive the already-built element.

Two details of `resize` that a reader might not expect:

- Unlike `std::vector::resize`, `resize(n)` constructs nothing in the new slots. Without a reallocation the slots keep whatever the buffer held, and `Resize` promises those old values; after a reallocation it promises none.
- In `resize`, the destructor loop of the shrinking branch runs from the old size up to the smaller new size, so it never executes. Destruction is not modelled, so this has no visible effect in the model.

## Model

| member | source | states |
|---|---|---|
| SeqOps.Inserted | vector.hpp:453-530 | The elements after an insertion: the prefix before pos is unchanged, the block sits at pos, and the suffix is shifted right by the block length; an empty block changes nothing |
| SeqOps.Erased | vector.hpp:532-556 | The elements after erasing [first, last): the prefix is unchanged and the suffix is shifted left by last - first; an empty range changes nothing and erasing everything leaves nothing |
| SeqOps.Repeat | vector.hpp:230-235 | n copies of one value: length n and every element equal to it |
| SeqOps.EraseAfterInsert | vector.hpp:495-556 | Erasing exactly the inserted block gives back the original elements |
| SeqOps.EraseOneAfterInsertOne | vector.hpp:453-541 | insert(pos, x) places x at pos, and erase(pos) afterwards restores the original elements |
| SeqOps.InsertTwice | vector.hpp:495-530 | Inserting b and then a at the same position is inserting a + b once |
| Growth.EnsureCapacity | vector.hpp:117-122 | The new capacity covers the requirement and the old capacity; it changes exactly when the requirement exceeds the capacity, and then it becomes four times the requirement |
| Growth.ReserveCapacity | vector.hpp:332-338 | The new capacity is the larger of n and the old capacity, and it changes exactly when n exceeds the capacity |
| Growth.PushBackCapacity | vector.hpp:410-418 | The capacity never shrinks; it stays the same exactly when the vector is not full or the capacity is 0, and otherwise it becomes four times the old capacity |
| Growth.PushBackRoom | vector.hpp:410-418 | The growth step leaves a free slot for the new element exactly when the capacity is not 0 |
| Growth.PushBackRun | vector.hpp:410-418 | A run of n push_backs never lowers the capacity and reallocates at most n times; without a reallocation the capacity is unchanged |
| Growth.PushBackRunBounds | vector.hpp:410-418 | After n push_backs from a non-zero capacity there is always room; the final capacity is the start times 4 to the number of reallocations, and it is at most four times the final size once a reallocation took place |
| Ordering.CompareFrom | vector.hpp:126-131 | The scan from index i: when the remainders from i on are equal, only the non-strict relations <= and >= hold |
| Ordering.Compare | vector.hpp:124-132 | compare on equal contents holds for <= and >= and fails for < and > |
| Ordering.FirstDifferenceExists | vector.hpp:124-132 | Two sequences that agree up to i have a first difference (or a common prefix end) at or after i |
| Ordering.FirstDifferenceUnique | vector.hpp:124-132 | The first difference is unique |
| Ordering.FirstDifferenceSymmetric | vector.hpp:124-132 | The first difference does not depend on the order of the operands |
| Ordering.CompareFromDecided | vector.hpp:124-132 | A scan started anywhere before the first difference returns the relation of the first differing pair, or of the two sizes when one sequence is a prefix of the other |
| Ordering.CompareDecided | vector.hpp:124-132 | compare returns the relation of the first differing pair, or of the two sizes |
| Ordering.LessIsLexicographic | vector.hpp:105 | operator< holds if and only if the contents are lexicographically less (a smaller first differing element, or a proper prefix) |
| Ordering.PrefixIsLess | vector.hpp:105 | A proper prefix is less than the longer vector, and the longer vector is not less than it |
| Ordering.LessEqualIsLessOrEqual | vector.hpp:106 | operator<= holds if and only if operator< holds or the contents are equal |
| Ordering.GreaterIsSwappedLess | vector.hpp:107-108 | operator> is operator< with the operands swapped, and operator>= is operator<= swapped |
| Ordering.Trichotomy | vector.hpp:105-108 | Exactly one of s < t, s == t and t < s holds, and operator>= is the negation of operator< |
| CatVector.Vector.constructor | vector.hpp:136-139 | vector(): no elements, capacity 4, in a fresh buffer |
| CatVector.Vector.Sized | vector.hpp:141-147 | vector(n): n elements, capacity 4n |
| CatVector.Vector.Filled | vector.hpp:149-155 | vector(n, value): n copies of value, capacity 4n |
| CatVector.Vector.FromSeq | vector.hpp:157-172 | vector(first, last) and vector(initializer_list): the given elements, capacity four times their count |
| CatVector.Vector.Copy | vector.hpp:174-180 | Copy constructor: the same elements and capacity, in a buffer of its own |
| CatVector.Vector.Move | vector.hpp:182-191 | Move constructor: the other's elements and capacity; the other is left with size 0 and capacity 0 |
| CatVector.Vector.Size | vector.hpp:317-320 | size() is the number of live elements |
| CatVector.Vector.Capacity | vector.hpp:327-330 | capacity() is never below the size |
| CatVector.Vector.Empty | vector.hpp:312-315 | empty() holds exactly when there are no live elements |
| CatVector.Vector.Reallocate | vector.hpp:304-310 | reallocate(): a fresh buffer of the new capacity holding the same live elements |
| CatVector.Vector.EnsureCapacity | vector.hpp:117-122 | The elements are kept; the capacity is Growth.EnsureCapacity, in a fresh buffer exactly when it grew |
| CatVector.Vector.Reserve | vector.hpp:332-338 | The elements are kept; the capacity is Growth.ReserveCapacity, in a fresh buffer exactly when it grew |
| CatVector.Vector.ShrinkToFit | vector.hpp:340-346 | The elements are kept and the capacity equals the size; the buffer is kept when they already agreed |
| CatVector.Vector.Resize | vector.hpp:600-612 | The size becomes n; shrinking keeps the first n elements; growing keeps all old elements, and without a reallocation the exposed slots keep the buffer's old values; the capacity is Growth.ReserveCapacity, in a fresh buffer exactly when n exceeds the old capacity and the same buffer otherwise |
| CatVector.Vector.ResizeFill | vector.hpp:614-628 | The first n elements when shrinking, with the buffer untouched; otherwise the old elements followed by copies of c up to size n; the capacity is Growth.ReserveCapacity, in a fresh buffer exactly when n exceeds the old capacity and the same buffer otherwise |
| CatVector.Vector.Clear | vector.hpp:572-580 | No live elements; the buffer and capacity are kept |
| CatVector.Vector.CopyAssign | vector.hpp:199-207 | The contents of other, which is unchanged; a self-assignment keeps the buffer; otherwise the capacity follows ensure_capacity, in a fresh buffer exactly when it grew and the same buffer otherwise |
| CatVector.Vector.MoveAssign | vector.hpp:209-220 | The contents of other; other is left empty with capacity 0 unless it is the vector itself; the capacity follows ensure_capacity, in a fresh buffer exactly when it grew and the same buffer otherwise |
| CatVector.Vector.AssignFill | vector.hpp:230-235 | assign(count, value): count copies of value; the capacity follows ensure_capacity, in a fresh buffer exactly when it grew and the same buffer otherwise |
| CatVector.Vector.AssignSeq | vector.hpp:222-252 | assign(first, last), assign(initializer_list) and operator=(initializer_list): exactly the given elements; the capacity follows ensure_capacity, in a fresh buffer exactly when it grew and the same buffer otherwise |
| CatVector.Vector.Get | vector.hpp:348-357 | operator[] reads the i-th live element |
| CatVector.Vector.Set | vector.hpp:348-351 | A write through operator[] replaces the i-th element, and no other slot of the buffer changes |
| CatVector.Vector.At | vector.hpp:359-367 | at(i) succeeds exactly when i < size and yields the i-th element; otherwise it fails with the out-of-range message "accessed position is out of range" |
| CatVector.Vector.Front | vector.hpp:369-377 | front() is the first element |
| CatVector.Vector.Back | vector.hpp:379-387 | back() is the last element |
| CatVector.Vector.GrowIfFull | vector.hpp:410-415 | The elements are kept; the capacity is quadrupled exactly when the vector was full (Growth.PushBackCapacity), in a fresh buffer |
| CatVector.Vector.MoveSuffixRight | vector.hpp:489 | The memmove of the suffix keeps the prefix and shifts the live suffix right by cnt slots |
| CatVector.Vector.MoveSuffixLeft | vector.hpp:553 | The memmove of the suffix keeps the prefix and shifts the suffix after last left onto first |
| CatVector.Vector.PushBack | vector.hpp:410-428 | The old elements followed by val; the capacity follows Growth.PushBackCapacity, in a fresh buffer exactly when the vector was full |
| CatVector.Vector.EmplaceBack | vector.hpp:399-408 | As PushBack, for the built element |
| CatVector.Vector.PopBack | vector.hpp:430-436 | The last element is dropped; the buffer is kept |
| CatVector.Vector.Insert | vector.hpp:453-479 | val is inserted in front of pos (Inserted with one element); returns pos, which holds val; growth as push_back |
| CatVector.Vector.Emplace | vector.hpp:438-451 | As Insert, for the built element |
| CatVector.Vector.InsertFill | vector.hpp:480-493 | cnt copies of val are inserted in front of pos; returns pos; the capacity follows ensure_capacity(size + cnt), in a fresh buffer exactly when it grew and the same buffer otherwise; nothing changes when cnt is 0 |
| CatVector.Vector.InsertSeq | vector.hpp:495-530 | The given elements are inserted in front of pos; returns pos; the capacity follows ensure_capacity(size + count), in a fresh buffer exactly when it grew and the same buffer otherwise; nothing changes for an empty range |
| CatVector.Vector.Erase | vector.hpp:532-541 | The element at pos is removed (Erased of one slot); returns pos; the buffer is kept |
| CatVector.Vector.EraseRange | vector.hpp:543-556 | [first, last) is removed; returns first; the buffer is kept, and an empty range changes nothing |
| CatVector.Vector.Swap | vector.hpp:558-570 | Buffers, capacities and contents are exchanged; no element is copied |
| CatVector.Vector.Equals | vector.hpp:582-589 | operator== holds exactly when the contents are equal, that is, equal sizes and pairwise equal elements |
| CatVector.Vector.NotEquals | vector.hpp:591-598 | operator!= holds exactly when the contents differ |
| CatVector.Compare | vector.hpp:124-132 | The loop computes Ordering.Compare of the two contents for the given relation |
| Scenarios.InsertIntoFive | tester.cpp:104-110 | Inserting 25 at index 1 of {30, 20, 20, 20, 10} gives {30, 25, 20, 20, 20, 10}, and the returned position holds 25 |
| Scenarios.AssignEightSevens | tester.cpp:174-180 | assign(8, 7) on vector(4, 5) gives eight 7s in the constructor's capacity 16 |
| Scenarios.CompareWithLongerPrefix | vector.hpp:582-598 | {1, 2, 3} and {1, 2, 3, 0} are unequal and different, and the first is less and not greater-or-equal |
| Scenarios.InsertThenErase | vector.hpp:453-541 | insert(it, x) followed by erase(it) restores the contents |
| Scenarios.EraseAllThenInsertNothing | vector.hpp:495-556 | erase(begin(), end()) leaves no elements, and inserting an empty range at end() returns end() |
| Scenarios.ShrinkTwice | vector.hpp:340-346 | A second shrink_to_fit keeps the buffer the first one left |
| Findings.InsertOneAsWritten | vector.hpp:438-479 | As written, insert(pos, val) and emplace are undefined exactly when the push_back growth step reallocates (the vector is full) or the capacity is 0; otherwise they yield Inserted |
| Findings.InsertManyAsWritten | vector.hpp:480-530 | As written, the count, range and list inserts are undefined exactly when the range is non-empty and ensure_capacity(size + count) reallocates; otherwise they yield Inserted |
| Findings.InsertIntoFullVector | vector.hpp:453-465 | Inserting 25 at index 1 of a full {30, 20, 20, 20} in capacity 4 is undefined as written, where {30, 25, 20, 20, 20} is meant |
| Findings.AppendRangeBeyondCapacity | vector.hpp:495-510 | Appending seven or more elements to vector(2, 5), which has capacity 8, is undefined as written, where the two 5s followed by the elements are meant |
| Findings.EraseRangeSizeAsWritten | vector.hpp:543-556 | The size erase(first, last) leaves as written: never above the old size, and reduced by last - first for trivially destructible types |
| Findings.EraseRangeKeepsSize | vector.hpp:543-556 | For a non-trivially-destructible type, a non-empty range erase as written leaves the size unchanged, and therefore wrong |

## Left out

- CatVector.Vector.PushBack: requires a non-zero capacity. From capacity 0 (a moved-from vector) the source quadruples 0 and writes past the buffer, which is undefined behaviour; Growth.PushBackRoom states the failure.
- CatVector.Vector.EmplaceBack: requires a non-zero capacity, for the same reason as PushBack.
- CatVector.Vector.Insert: requires a non-zero capacity, for the same reason as PushBack. The position is taken in the grown buffer, which is the intended behaviour; Findings.InsertOneAsWritten states that the source is undefined there.
- CatVector.Vector.Emplace: requires a non-zero capacity, for the same reason as PushBack.
- CatVector.Vector.InsertFill: the position is taken in the grown buffer, which is the intended behaviour; Findings.InsertManyAsWritten states that the source is undefined there.
- CatVector.Vector.InsertSeq: the position is taken in the grown buffer, which is the intended behaviour; Findings.InsertManyAsWritten states that the source is undefined there. A range that aliases the vector itself is not modelled, because the elements arrive as a value.
- CatVector.Vector.EraseRange: follows the trivially destructible path, where the size drops by last - first; the other path is stated in Findings.
- CatVector.Vector.Sized: says nothing about the values of the n elements, because default construction of `T` is not modelled.
- CatVector.Vector.Resize: the exposed slots after a reallocating growth are unspecified. They hold what `new T[n]` default-initialised (vector.hpp:306), and default initialisation of `T` is not modelled.
- CatVector.Compare: instantiated with `int` elements, so the cast of the sizes to `T` is the identity; floating-point elements and their NaN comparisons are not modelled.
- Findings.InsertOneAsWritten and Findings.InsertManyAsWritten: a reallocating call is only marked undefined. The model does not say what memory the stale memmove and writes touch.
- Destructor calls: the never-executing loop in resize's shrinking branch and the element destructors in pop_back, erase and clear. They have no effect on a value model.
- An element argument that refers into the vector itself is not modelled. `push_back`, `insert(pos, val)` and `insert(pos, cnt, val)` take the element by reference (vector.hpp:411, 455, 482), while the model receives a value, so two source behaviours are absent:
  - `push_back(v[0])` on a full vector reads the element from the buffer `reallocate()` has just freed (vector.hpp:308, 416);
  - `insert(begin(), v[1])` on {a, b} with spare room copies the element after the memmove has shifted it, giving {a, a, b} where the model gives {b, a, b} (vector.hpp:461-462).
- Element construction and forwarding: variadic `emplace`/`emplace_back` arguments and the difference between copy and move of an element. The element is passed as a value.
- Both the move constructor (vector.hpp:189) and move assignment (vector.hpp:216) set the other vector's buffer to null without freeing it. This memory leak concerns memory management, which is not modelled.
- Allocation failure: `new (std::nothrow)` in reallocate may yield null; allocation is assumed to succeed.
- Fixed-width arithmetic: the `<< 2` growth and the size arithmetic on `size_t`, including overflow. Sizes are unbounded naturals.
- `max_size()` and `CATZ_VECTOR_MAX_SZ`: a platform constant with no behaviour attached.
- `data()`, `begin()`/`end()`, and `rbegin()`/`rend()`: these only expose the buffer as pointers. Positions are indices here, and the live elements are `Contents()`.
- `Print` and the rest of the driver in `tester.cpp`: console output and timing loops.

## Findings

| source | as written | input that shows it | evidently intended | confidence | as-written member | corrected member |
|---|---|---|---|---|---|---|
| vector.hpp:453-465 | insert(pos, val) and emplace take the target pointer before quadrupling a full buffer. The memmove length then mixes the stale iterator with the new buffer, and the element is written into the released buffer: undefined behaviour | {30, 20, 20, 20} in capacity 4, insert(begin() + 1, 25) | {30, 25, 20, 20, 20} | not executed; follows from the code, high | Findings.InsertIntoFullVector | CatVector.Vector.Insert |
| vector.hpp:480-530 | insert(pos, cnt, val) and the range and list inserts take the target pointer before reallocating. The memmove and the element writes then run through the stale pointer: undefined behaviour (the driver's tester.cpp:127 reaches it) | vector(2, 5), insert(end(), a range of seven or more elements) | the two 5s followed by the range | not executed; follows from the code, high | Findings.AppendRangeBeyondCapacity | CatVector.Vector.InsertSeq |
| vector.hpp:543-556 | for a non-trivially-destructible T the destructor loop advances first to last, and the size is then reduced by last - first, which is 0 | erase(begin(), begin() + 1) on a vector of one non-trivially-destructible element | size reduced by the range length | not executed; follows from the code, high | Findings.EraseRangeKeepsSize | CatVector.Vector.EraseRange |
