/**
  The source as written where it departs from what the surrounding code
  evidently intends.  The class in CatVector follows the intended behaviour;
  the functions here state what the written code does instead.
 */
module Findings {
  import opened SeqOps
  import Growth

  /** What a call of the source does: the live elements it leaves, or undefined behaviour. */
  datatype Outcome<T> = Defined(contents: seq<T>) | Undefined

  /**
    insert(pos, val) and emplace as written, on a vector with elements s and
    capacity cap.  The target pointer is taken in the current buffer before
    the capacity check.  When the check reallocates, the old buffer is
    released, and the memmove then runs through the stale pointer.  Its length
    subtracts the new buffer's address from the stale iterator, and the element
    is written into released memory: the call is undefined.  That includes
    capacity 0, for a moved-from vector, after vector(0), or after
    shrink_to_fit on an empty vector: a size of 0 equals the capacity of 0,
    so the check reallocates there too.  Without a reallocation the call is
    correct.
   */
  function InsertOneAsWritten<T>(s: seq<T>, cap: nat, pos: nat, val: T): (r: Outcome<T>)
    requires |s| <= cap && pos <= |s|
    ensures r.Undefined? <==> Growth.PushBackCapacity(|s|, cap) != cap || cap == 0
    ensures r.Defined? ==> r.contents == Inserted(s, pos, [val])
  {
    if |s| == cap then Undefined else Defined(Inserted(s, pos, [val]))
  }

  /**
    insert(pos, cnt, val), insert(pos, first, last) and insert(pos, list) as
    written, with ins the elements to insert.  An empty ins returns at once.
    Otherwise the target pointer is taken before the capacity check, as in
    InsertOneAsWritten, so the call is undefined exactly when the check
    reallocates.
   */
  function InsertManyAsWritten<T>(s: seq<T>, cap: nat, pos: nat, ins: seq<T>): (r: Outcome<T>)
    requires |s| <= cap && pos <= |s|
    ensures r.Undefined? <==> ins != [] && Growth.EnsureCapacity(|s| + |ins|, cap) != cap
    ensures r.Defined? ==> r.contents == Inserted(s, pos, ins)
  {
    if ins == [] then Defined(s)
    else if |s| + |ins| > cap then Undefined
    else Defined(Inserted(s, pos, ins))
  }

  /**
    {30, 20, 20, 20} in capacity 4 (vector() followed by four push_backs) is
    full, so insert(begin() + 1, 25) as written is undefined, where
    {30, 25, 20, 20, 20} is meant.
   */
  lemma InsertIntoFullVector()
    ensures InsertOneAsWritten([30, 20, 20, 20], 4, 1, 25) == Undefined
    ensures Inserted([30, 20, 20, 20], 1, [25]) == [30, 25, 20, 20, 20]
  {
  }

  /**
    vector(2, 5) has capacity 8.  Inserting seven or more elements at end(),
    as the driver does with 19 of them at tester.cpp:127, is undefined as
    written, where the two 5s followed by the elements are meant.
   */
  lemma AppendRangeBeyondCapacity(ins: seq<int>)
    requires |ins| > 6
    ensures InsertManyAsWritten([5, 5], 8, 2, ins) == Undefined
    ensures Inserted([5, 5], 2, ins) == [5, 5] + ins
  {
  }

  /**
    The size erase(first, last) leaves, as written.  When T is not trivially
    destructible, the destructor loop advances `first` up to `last` before
    the size is reduced by `last - first`.
   */
  function EraseRangeSizeAsWritten(size: nat, first: nat, last: nat, triviallyDestructible: bool): (r: nat)
    requires first <= last <= size
    ensures r <= size
    ensures triviallyDestructible ==> r == size - (last - first)
  {
    var advanced := if triviallyDestructible then first else last;
    size - (last - advanced)
  }

  /** For a non-trivially-destructible element type a non-empty range erase leaves the size unchanged. */
  lemma EraseRangeKeepsSize(s: seq<int>, first: nat, last: nat)
    requires first < last <= |s|
    ensures EraseRangeSizeAsWritten(|s|, first, last, false) == |s|
    ensures EraseRangeSizeAsWritten(|s|, first, last, false) != |Erased(s, first, last)|
  {
  }
}
