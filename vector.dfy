/**
  The dynamic array `lni::vector<T>`: a buffer `arr` whose length is the
  capacity (`rsrv_sz`) and a size (`vec_sz`); the live elements are
  `arr[..size]`.  A null buffer, which the source leaves behind after a
  move, is a buffer of length 0.  Iterator positions are indices.
 */
module CatVector {
  import opened SeqOps
  import Growth
  import Ordering

  datatype Error = OutOfRange(message: string)
  datatype Result<T> = Ok(value: T) | Err(error: Error)

  /** The message `at` throws with. */
  const OutOfRangeMessage := "accessed position is out of range"

  class Vector<T(0,==)> {
    var arr: array<T>
    var size: nat

    /** size <= capacity. */
    ghost predicate Valid()
      reads this
    {
      size <= arr.Length
    }

    /** The live elements, in index order. */
    ghost function Contents(): seq<T>
      reads this, arr
      requires Valid()
    {
      arr[..size]
    }

    // ---------------------------------------------------------------
    // Construction

    /** vector(): an empty vector with the default capacity 4. */
    constructor ()
      ensures Valid() && fresh(arr)
      ensures Contents() == [] && arr.Length == 4
    {
      arr := new T[4];
      size := 0;
    }

    /** vector(n): n default-initialised elements (values unspecified), capacity 4n. */
    constructor Sized(n: nat)
      ensures Valid() && fresh(arr)
      ensures |Contents()| == n && arr.Length == 4 * n
    {
      arr := new T[n * 4];
      size := n;
    }

    /** vector(n, value): n copies of value, capacity 4n. */
    constructor Filled(n: nat, value: T)
      ensures Valid() && fresh(arr)
      ensures Contents() == Repeat(value, n) && arr.Length == 4 * n
    {
      var a := new T[n * 4];
      forall k | 0 <= k < n {
        a[k] := value;
      }
      arr := a;
      size := n;
      assert a[..n] == Repeat(value, n);
    }

    /** vector(first, last) and vector(initializer_list): a copy of the elements, capacity 4 times their count. */
    constructor FromSeq(s: seq<T>)
      ensures Valid() && fresh(arr)
      ensures Contents() == s && arr.Length == 4 * |s|
    {
      var a := new T[|s| * 4];
      forall k | 0 <= k < |s| {
        a[k] := s[k];
      }
      arr := a;
      size := |s|;
      assert a[..|s|] == s;
    }

    /** vector(const vector&): the same elements and the same capacity, in a buffer of its own. */
    constructor Copy(other: Vector<T>)
      requires other.Valid()
      ensures Valid() && fresh(arr)
      ensures Contents() == other.Contents() && arr.Length == other.arr.Length
    {
      var a := new T[other.arr.Length];
      forall k | 0 <= k < other.size {
        a[k] := other.arr[k];
      }
      assert a[..other.size] == other.arr[..other.size];
      arr := a;
      size := other.size;
    }

    /** vector(vector&&): takes the elements and capacity of other, which is left with size 0 and capacity 0. */
    constructor Move(other: Vector<T>)
      requires other.Valid()
      modifies other
      ensures Valid() && fresh(arr)
      ensures Contents() == old(other.Contents()) && arr.Length == old(other.arr.Length)
      ensures other.Valid() && other.Contents() == [] && other.arr.Length == 0
    {
      var a := new T[other.arr.Length];
      forall k | 0 <= k < other.size {
        a[k] := other.arr[k];
      }
      assert a[..other.size] == other.arr[..other.size];
      arr := a;
      size := other.size;
      new;
      other.size := 0;
      other.arr := new T[0];
    }

    // ---------------------------------------------------------------
    // Capacity

    /** size(). */
    function Size(): (n: nat)
      reads this, arr
      requires Valid()
      ensures n == |Contents()|
    {
      size
    }

    /** capacity(): never below the size. */
    function Capacity(): (c: nat)
      reads this, arr
      requires Valid()
      ensures c >= |Contents()|
    {
      arr.Length
    }

    /** empty(). */
    function Empty(): (b: bool)
      reads this, arr
      requires Valid()
      ensures b <==> Contents() == []
    {
      size == 0
    }

    /** reallocate(): a fresh buffer of the new capacity holding the same live elements. */
    method Reallocate(newCapacity: nat)
      requires Valid() && size <= newCapacity
      modifies this
      ensures Valid() && fresh(arr) && arr.Length == newCapacity
      ensures size == old(size) && Contents() == old(Contents())
    {
      var a := new T[newCapacity];
      forall k | 0 <= k < size {
        a[k] := arr[k];
      }
      assert a[..size] == arr[..size];
      arr := a;
    }

    /** ensure_capacity(required): reallocates to 4 * required when required exceeds the capacity. */
    method EnsureCapacity(required: nat)
      requires Valid()
      modifies this
      ensures Valid() && Contents() == old(Contents()) && size == old(size)
      ensures arr.Length == Growth.EnsureCapacity(required, old(arr.Length))
      ensures if required > old(arr.Length) then fresh(arr) else arr == old(arr)
    {
      if required > arr.Length {
        Reallocate(required * 4);
      }
    }

    /** reserve(n): reallocates to exactly n when n exceeds the capacity. */
    method Reserve(n: nat)
      requires Valid()
      modifies this
      ensures Valid() && Contents() == old(Contents())
      ensures arr.Length == Growth.ReserveCapacity(n, old(arr.Length))
      ensures if n > old(arr.Length) then fresh(arr) else arr == old(arr)
    {
      if n > arr.Length {
        Reallocate(n);
      }
    }

    /** shrink_to_fit(): capacity becomes the size; no reallocation when they already agree. */
    method ShrinkToFit()
      requires Valid()
      modifies this
      ensures Valid() && Contents() == old(Contents())
      ensures arr.Length == |Contents()|
      ensures if old(arr.Length) == old(size) then arr == old(arr) else fresh(arr)
    {
      if arr.Length != size {
        Reallocate(size);
      }
    }

    /**
      resize(n): size becomes n and the first min(old size, n) elements are kept.
      The source constructs nothing in the exposed slots: without a
      reallocation they keep whatever the buffer held there, and after one
      they hold what `new T[n]` default-initialised, which the model leaves
      unspecified.
     */
    method Resize(n: nat)
      requires Valid()
      modifies this
      ensures Valid() && |Contents()| == n
      ensures n <= old(size) ==> Contents() == old(Contents())[..n]
      ensures n > old(size) ==> Contents()[..old(size)] == old(Contents())
      ensures n <= old(arr.Length) ==> arr == old(arr) && Contents() == old(arr[..n])
      ensures arr.Length == Growth.ReserveCapacity(n, old(arr.Length))
      ensures if n > old(arr.Length) then fresh(arr) else arr == old(arr)
    {
      if n > size {
        if n > arr.Length {
          Reallocate(n);
        }
      }
      size := n;
    }

    /** resize(n, c): as resize(n), with the slots from the old size up to n set to c. */
    method ResizeFill(n: nat, c: T)
      requires Valid()
      modifies this, arr
      ensures Valid()
      ensures Contents() == if n <= old(size) then old(Contents())[..n]
                            else old(Contents()) + Repeat(c, n - old(size))
      ensures arr.Length == Growth.ReserveCapacity(n, old(arr.Length))
      ensures n <= old(size) ==> arr[..] == old(arr[..])
      ensures if n > old(arr.Length) then fresh(arr) else arr == old(arr)
    {
      if n > size {
        ghost var s := Contents();
        if n > arr.Length {
          Reallocate(n);
        }
        ghost var ins := Repeat(c, n - size);
        var i := size;
        while i < n
          invariant size <= i <= n <= arr.Length
          invariant forall k {:trigger arr[k]} :: 0 <= k < size ==> arr[k] == s[k]
          invariant forall k :: size <= k < i ==> arr[k] == c
          modifies arr
        {
          arr[i] := c;
          i := i + 1;
        }
        ArrayInserted(arr, n, s, size, ins);
        assert Inserted(s, |s|, ins) == s + ins;
      }
      size := n;
    }

    /** clear(): no live elements, capacity and buffer kept. */
    method Clear()
      requires Valid()
      modifies this
      ensures Valid() && Contents() == [] && arr == old(arr)
    {
      size := 0;
    }

    // ---------------------------------------------------------------
    // Assignment

    /** operator=(const vector&): the contents of other; a self-assignment changes nothing. */
    method CopyAssign(other: Vector<T>)
      requires Valid() && other.Valid()
      modifies this, arr
      ensures Valid() && other.Valid()
      ensures Contents() == old(other.Contents())
      ensures other.size == old(other.size) && other.arr == old(other.arr)
      ensures other.Contents() == old(other.Contents())
      ensures other == this ==> arr == old(arr)
      ensures other != this ==> arr.Length == Growth.EnsureCapacity(old(other.size), old(arr.Length))
      ensures if other != this && old(other.size) > old(arr.Length) then fresh(arr) else arr == old(arr)
    {
      if this != other {
        ghost var src := other.arr[..other.size];
        EnsureCapacity(other.size);
        forall k | 0 <= k < other.size {
          arr[k] := other.arr[k];
        }
        size := other.size;
        assert arr[..size] == src;
      }
    }

    /** operator=(vector&&): the contents of other, which is left with size 0 and capacity 0; self-assignment changes nothing. */
    method MoveAssign(other: Vector<T>)
      requires Valid() && other.Valid()
      modifies this, arr, other
      ensures Valid() && other.Valid()
      ensures Contents() == old(other.Contents())
      ensures other != this ==> other.Contents() == [] && other.arr.Length == 0
      ensures other != this ==> arr.Length == Growth.EnsureCapacity(old(other.size), old(arr.Length))
      ensures other == this ==> arr == old(arr)
      ensures if other != this && old(other.size) > old(arr.Length) then fresh(arr) else arr == old(arr)
    {
      if this != other {
        ghost var src := other.arr[..other.size];
        EnsureCapacity(other.size);
        forall k | 0 <= k < other.size {
          arr[k] := other.arr[k];
        }
        size := other.size;
        assert arr[..size] == src;
        other.size := 0;
        other.arr := new T[0];
      }
    }

    /** assign(count, value): count copies of value. */
    method AssignFill(count: nat, value: T)
      requires Valid()
      modifies this, arr
      ensures Valid() && Contents() == Repeat(value, count)
      ensures arr.Length == Growth.EnsureCapacity(count, old(arr.Length))
      ensures if count > old(arr.Length) then fresh(arr) else arr == old(arr)
    {
      EnsureCapacity(count);
      forall k | 0 <= k < count {
        arr[k] := value;
      }
      size := count;
      assert arr[..size] == Repeat(value, count);
    }

    /** assign(first, last), assign(initializer_list) and operator=(initializer_list): a copy of s. */
    method AssignSeq(s: seq<T>)
      requires Valid()
      modifies this, arr
      ensures Valid() && Contents() == s
      ensures arr.Length == Growth.EnsureCapacity(|s|, old(arr.Length))
      ensures if |s| > old(arr.Length) then fresh(arr) else arr == old(arr)
    {
      EnsureCapacity(|s|);
      forall k | 0 <= k < |s| {
        arr[k] := s[k];
      }
      size := |s|;
      assert arr[..size] == s;
    }

    // ---------------------------------------------------------------
    // Element access

    /** operator[](i), read: unchecked, the caller guarantees i < size. */
    function Get(i: nat): (x: T)
      reads this, arr
      requires Valid() && i < |Contents()|
      ensures x == Contents()[i]
    {
      arr[i]
    }

    /** operator[](i), written through the returned reference. */
    method Set(i: nat, x: T)
      requires Valid() && i < |Contents()|
      modifies arr
      ensures Valid() && Contents() == old(Contents())[i := x]
      ensures arr[..] == old(arr[..])[i := x]
    {
      arr[i] := x;
      assert arr[..size] == old(arr[..size])[i := x];
    }

    /** at(i): the element, or the out-of-range error when i >= size. */
    function At(i: nat): (r: Result<T>)
      reads this, arr
      requires Valid()
      ensures r.Ok? <==> i < |Contents()|
      ensures r.Ok? ==> r.value == Contents()[i]
      ensures r.Err? ==> r.error == OutOfRange(OutOfRangeMessage)
    {
      if i < size then Ok(arr[i]) else Err(OutOfRange(OutOfRangeMessage))
    }

    /** front(): the first element of a non-empty vector. */
    function Front(): (x: T)
      reads this, arr
      requires Valid() && |Contents()| > 0
      ensures x == Contents()[0]
    {
      arr[0]
    }

    /** back(): the last element of a non-empty vector. */
    function Back(): (x: T)
      reads this, arr
      requires Valid() && |Contents()| > 0
      ensures x == Contents()[|Contents()| - 1]
    {
      arr[size - 1]
    }

    /** The step push_back, emplace_back, insert(pos, val) and emplace open with: when full, capacity times four. */
    method GrowIfFull()
      requires Valid()
      modifies this
      ensures Valid() && size == old(size) && Contents() == old(Contents())
      ensures arr.Length == Growth.PushBackCapacity(old(size), old(arr.Length))
      ensures if old(size) == old(arr.Length) then fresh(arr) else arr == old(arr)
    {
      if size == arr.Length {
        Reallocate(arr.Length * 4);
      }
    }

    /** memmove of the live suffix [pos, size) by cnt slots to the right, into room the buffer has. */
    method MoveSuffixRight(pos: nat, cnt: nat)
      requires Valid() && pos <= size && size + cnt <= arr.Length
      modifies arr
      ensures forall k {:trigger arr[k]} :: 0 <= k < pos ==> arr[k] == old(Contents())[k]
      ensures forall k :: pos + cnt <= k < size + cnt ==> arr[k] == old(Contents())[k - cnt]
    {
      forall k | pos <= k < size {
        arr[k + cnt] := arr[k];
      }
    }

    /** memmove of the live suffix [last, size) onto the slots from first on. */
    method MoveSuffixLeft(first: nat, last: nat)
      requires Valid() && first <= last <= size
      modifies arr
      ensures forall k {:trigger arr[k]} :: 0 <= k < first ==> arr[k] == old(Contents())[k]
      ensures forall k :: first <= k < size - (last - first) ==> arr[k] == old(Contents())[k + (last - first)]
    {
      var n := last - first;
      forall k | first <= k < size - n {
        arr[k] := arr[k + n];
      }
    }

    // ---------------------------------------------------------------
    // Modifiers

    /**
      push_back(val): appends val, quadrupling the capacity when the vector is full.
      From capacity 0 the source quadruples 0 and writes out of bounds
      (Growth.PushBackRoom), so a non-zero capacity is required.
     */
    method PushBack(val: T)
      requires Valid() && arr.Length > 0
      modifies this, arr
      ensures Valid() && Contents() == old(Contents()) + [val]
      ensures arr.Length == Growth.PushBackCapacity(old(size), old(arr.Length))
      ensures if old(size) == old(arr.Length) then fresh(arr) else arr == old(arr)
    {
      GrowIfFull();
      arr[size] := val;
      size := size + 1;
      assert arr[..size] == old(arr[..size]) + [val];
    }

    /** emplace_back(args...): push_back of the already-built element. */
    method EmplaceBack(val: T)
      requires Valid() && arr.Length > 0
      modifies this, arr
      ensures Valid() && Contents() == old(Contents()) + [val]
      ensures arr.Length == Growth.PushBackCapacity(old(size), old(arr.Length))
      ensures if old(size) == old(arr.Length) then fresh(arr) else arr == old(arr)
    {
      PushBack(val);
    }

    /** pop_back(): drops the last element; capacity and buffer kept. */
    method PopBack()
      requires Valid() && size > 0
      modifies this
      ensures Valid() && Contents() == old(Contents())[..old(size) - 1] && arr == old(arr)
    {
      size := size - 1;
    }

    /**
      insert(pos, val): val before the element at pos; returns pos.  The
      suffix moves right by one (memmove).  Growth as in push_back, and so a
      non-zero capacity is required.  The position is taken in the buffer
      after any growth; Findings.InsertOneAsWritten states that the source's
      early pointer makes a reallocating call undefined.
     */
    method Insert(pos: nat, val: T) returns (r: nat)
      requires Valid() && pos <= size && arr.Length > 0
      modifies this, arr
      ensures Valid() && Contents() == Inserted(old(Contents()), pos, [val])
      ensures r == pos && Contents()[r] == val
      ensures arr.Length == Growth.PushBackCapacity(old(size), old(arr.Length))
      ensures if old(size) == old(arr.Length) then fresh(arr) else arr == old(arr)
    {
      ghost var s := Contents();
      GrowIfFull();
      MoveSuffixRight(pos, 1);
      arr[pos] := val;
      ArrayInserted(arr, size + 1, s, pos, [val]);
      size := size + 1;
      r := pos;
    }

    /** emplace(pos, args...): insert(pos, val) of the already-built element. */
    method Emplace(pos: nat, val: T) returns (r: nat)
      requires Valid() && pos <= size && arr.Length > 0
      modifies this, arr
      ensures Valid() && Contents() == Inserted(old(Contents()), pos, [val])
      ensures r == pos && Contents()[r] == val
      ensures arr.Length == Growth.PushBackCapacity(old(size), old(arr.Length))
      ensures if old(size) == old(arr.Length) then fresh(arr) else arr == old(arr)
    {
      r := Insert(pos, val);
    }

    /**
      insert(pos, cnt, val): cnt copies of val before pos; returns pos.
      Nothing changes when cnt is 0; otherwise the capacity grows to
      4 * (size + cnt) when size + cnt exceeds it.
     */
    method InsertFill(pos: nat, cnt: nat, val: T) returns (r: nat)
      requires Valid() && pos <= size
      modifies this, arr
      ensures Valid() && Contents() == Inserted(old(Contents()), pos, Repeat(val, cnt))
      ensures r == pos
      ensures arr.Length == Growth.EnsureCapacity(old(size) + cnt, old(arr.Length))
      ensures cnt == 0 ==> arr == old(arr) && size == old(size)
      ensures if cnt > 0 && old(size) + cnt > old(arr.Length) then fresh(arr) else arr == old(arr)
    {
      if cnt == 0 {
        return pos;
      }
      ghost var s := Contents();
      ghost var ins := Repeat(val, cnt);
      EnsureCapacity(size + cnt);
      MoveSuffixRight(pos, cnt);
      size := size + cnt;
      var i := 0;
      while i < cnt
        invariant 0 <= i <= cnt && size == |s| + cnt <= arr.Length
        modifies arr
        invariant forall k {:trigger arr[k]} :: 0 <= k < pos ==> arr[k] == s[k]
        invariant forall k :: pos + cnt <= k < size ==> arr[k] == s[k - cnt]
        invariant forall k :: pos <= k < pos + i ==> arr[k] == val
      {
        arr[pos + i] := val;
        i := i + 1;
      }
      r := pos;
      ArrayInserted(arr, size, s, pos, ins);
    }

    /**
      insert(pos, first, last) and insert(pos, initializer_list): the elements
      of ins before pos; returns pos.  Capacity as in InsertFill.
     */
    method InsertSeq(pos: nat, ins: seq<T>) returns (r: nat)
      requires Valid() && pos <= size
      modifies this, arr
      ensures Valid() && Contents() == Inserted(old(Contents()), pos, ins)
      ensures r == pos
      ensures arr.Length == Growth.EnsureCapacity(old(size) + |ins|, old(arr.Length))
      ensures ins == [] ==> arr == old(arr) && size == old(size)
      ensures if ins != [] && old(size) + |ins| > old(arr.Length) then fresh(arr) else arr == old(arr)
    {
      var cnt := |ins|;
      if cnt == 0 {
        return pos;
      }
      ghost var s := Contents();
      EnsureCapacity(size + cnt);
      MoveSuffixRight(pos, cnt);
      var i := 0;
      while i < cnt
        invariant 0 <= i <= cnt && size == |s| && size + cnt <= arr.Length
        modifies arr
        invariant forall k {:trigger arr[k]} :: 0 <= k < pos ==> arr[k] == s[k]
        invariant forall k :: pos + cnt <= k < size + cnt ==> arr[k] == s[k - cnt]
        invariant forall k :: pos <= k < pos + i ==> arr[k] == ins[k - pos]
      {
        arr[pos + i] := ins[i];
        i := i + 1;
      }
      size := size + cnt;
      r := pos;
      ArrayInserted(arr, size, s, pos, ins);
    }

    /** erase(pos): removes the element at pos, moving the suffix left by one; returns pos. */
    method Erase(pos: nat) returns (r: nat)
      requires Valid() && pos < size
      modifies this, arr
      ensures Valid() && Contents() == Erased(old(Contents()), pos, pos + 1)
      ensures r == pos && arr == old(arr)
    {
      ghost var s := Contents();
      MoveSuffixLeft(pos, pos + 1);
      size := size - 1;
      r := pos;
      assert arr[..size] == Erased(s, pos, pos + 1);
    }

    /** erase(first, last): removes [first, last), moving the suffix left; returns first. */
    method EraseRange(first: nat, last: nat) returns (r: nat)
      requires Valid() && first <= last <= size
      modifies this, arr
      ensures Valid() && Contents() == Erased(old(Contents()), first, last)
      ensures r == first && arr == old(arr)
      ensures first == last ==> size == old(size) && arr[..] == old(arr[..])
    {
      if first == last {
        return first;
      }
      ghost var s := Contents();
      MoveSuffixLeft(first, last);
      size := size - (last - first);
      r := first;
      assert arr[..size] == Erased(s, first, last);
    }

    /** swap(rhs): exchanges the buffers (hence capacities) and sizes; no element is copied. */
    method Swap(rhs: Vector<T>)
      requires Valid() && rhs.Valid()
      modifies this, rhs
      ensures Valid() && rhs.Valid()
      ensures arr == old(rhs.arr) && rhs.arr == old(arr)
      ensures Contents() == old(rhs.Contents()) && rhs.Contents() == old(Contents())
    {
      arr, rhs.arr := rhs.arr, arr;
      size, rhs.size := rhs.size, size;
    }

    // ---------------------------------------------------------------
    // Equality

    /** operator==: same size and pairwise equal elements. */
    method Equals(rhs: Vector<T>) returns (r: bool)
      requires Valid() && rhs.Valid()
      ensures r <==> Contents() == rhs.Contents()
      ensures r <==> |Contents()| == |rhs.Contents()| &&
                     forall k :: 0 <= k < |Contents()| ==> Contents()[k] == rhs.Contents()[k]
    {
      if size != rhs.size {
        return false;
      }
      var i := 0;
      while i < size
        invariant 0 <= i <= size
        invariant arr[..i] == rhs.arr[..i]
      {
        if arr[i] != rhs.arr[i] {
          assert Contents()[i] != rhs.Contents()[i];
          return false;
        }
        assert arr[..i + 1] == arr[..i] + [arr[i]];
        assert rhs.arr[..i + 1] == rhs.arr[..i] + [rhs.arr[i]];
        i := i + 1;
      }
      return true;
    }

    /** operator!=: a size mismatch or some differing pair; the negation of operator==. */
    method NotEquals(rhs: Vector<T>) returns (r: bool)
      requires Valid() && rhs.Valid()
      ensures r <==> Contents() != rhs.Contents()
    {
      if size != rhs.size {
        return true;
      }
      var i := 0;
      while i < size
        invariant 0 <= i <= size
        invariant arr[..i] == rhs.arr[..i]
      {
        if arr[i] != rhs.arr[i] {
          assert Contents()[i] != rhs.Contents()[i];
          return true;
        }
        assert arr[..i + 1] == arr[..i] + [arr[i]];
        assert rhs.arr[..i + 1] == rhs.arr[..i] + [rhs.arr[i]];
        i := i + 1;
      }
      return false;
    }
  }

  /**
    compare(rhs, op) for int elements, behind operator<, <=, > and >=: the
    first differing pair decides, otherwise the two sizes do.
   */
  method Compare(lhs: Vector<int>, rhs: Vector<int>, op: Ordering.Relation) returns (r: bool)
    requires lhs.Valid() && rhs.Valid()
    ensures r == Ordering.Compare(op, lhs.Contents(), rhs.Contents())
  {
    ghost var s, t := lhs.Contents(), rhs.Contents();
    var ub := if lhs.size < rhs.size then lhs.size else rhs.size;
    var i := 0;
    while i < ub
      invariant 0 <= i <= ub
      invariant Ordering.CompareFrom(op, s, t, i) == Ordering.Compare(op, s, t)
    {
      if lhs.arr[i] != rhs.arr[i] {
        return Ordering.Holds(op, lhs.arr[i], rhs.arr[i]);
      }
      i := i + 1;
    }
    r := Ordering.Holds(op, lhs.size, rhs.size);
  }
}
