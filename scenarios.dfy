/**
  Scenarios stated against the model: the insert and assign examples of the
  repository's driver, with its floating-point elements replaced by integers
  (3.0, 2.5, ... scaled by ten); a comparison example of the model's own; and
  round trips on any vector.
 */
module Scenarios {
  import opened SeqOps
  import opened CatVector
  import Ordering

  /** insert(begin() + 1, 2.5) into {3, 2, 2, 2, 1}: {3, 2.5, 2, 2, 2, 1}, and the returned position holds 2.5. */
  method InsertIntoFive() returns (v: Vector<int>, it: nat)
    ensures v.Valid() && v.Contents() == [30, 25, 20, 20, 20, 10]
    ensures it == 1 && v.Get(it) == 25
  {
    v := new Vector.FromSeq([30, 20, 20, 20, 10]);
    it := v.Insert(1, 25);
  }

  /** assign(8, 7) on a vector built as vector(4, 5): eight 7s, in the capacity 16 the constructor chose. */
  method AssignEightSevens() returns (v: Vector<int>)
    ensures v.Valid() && v.Contents() == Repeat(7, 8) && v.Size() == 8
    ensures v.Capacity() == 16
  {
    v := new Vector.Filled(4, 5);
    v.AssignFill(8, 7);
  }

  /** {1,2,3} and {1,2,3,0} are not equal, and the first is less than the second but not greater or equal. */
  method CompareWithLongerPrefix() returns (eq: bool, ne: bool, lt: bool, ge: bool)
    ensures !eq && ne && lt && !ge
  {
    var a := new Vector.FromSeq([1, 2, 3]);
    var b := new Vector.FromSeq([1, 2, 3, 0]);
    eq := a.Equals(b);
    ne := a.NotEquals(b);
    lt := Compare(a, b, Ordering.Less);
    ge := Compare(a, b, Ordering.GreaterEqual);
    assert [1, 2, 3] == [1, 2, 3, 0][..3];
    Ordering.PrefixIsLess([1, 2, 3], [1, 2, 3, 0]);
    Ordering.Trichotomy([1, 2, 3], [1, 2, 3, 0]);
  }

  /** insert(it, x) followed by erase(it) restores the contents. */
  method InsertThenErase(v: Vector<int>, i: nat, x: int)
    requires v.Valid() && i <= |v.Contents()| && v.Capacity() > 0
    modifies v, v.arr
    ensures v.Valid() && v.Contents() == old(v.Contents())
  {
    var it := v.Insert(i, x);
    it := v.Erase(it);
    EraseOneAfterInsertOne(old(v.Contents()), i, x);
  }

  /** erase(begin(), end()) empties the vector; insert(end(), {}) changes nothing and returns end(). */
  method EraseAllThenInsertNothing(v: Vector<int>) returns (it: nat)
    requires v.Valid()
    modifies v, v.arr
    ensures v.Valid() && v.Contents() == [] && it == 0
  {
    var first := v.EraseRange(0, v.size);
    it := v.InsertSeq(v.size, []);
  }

  /** shrink_to_fit twice: the second call keeps the buffer it finds. */
  method ShrinkTwice(v: Vector<int>)
    requires v.Valid()
    modifies v
    ensures v.Valid() && v.Contents() == old(v.Contents()) && v.Capacity() == |v.Contents()|
  {
    v.ShrinkToFit();
    var buffer := v.arr;
    v.ShrinkToFit();
    assert v.arr == buffer;
  }
}
