/**
  The abstract effect of the vector's mutators on its sequence of live
  elements: a block inserted at a position (the suffix shifted right), a
  range erased (the suffix shifted left), and a run of copies of one value.
 */
module SeqOps {

  /** `ins` placed in front of `s[pos]`; everything from `pos` on moves right by |ins|. */
  function Inserted<T>(s: seq<T>, pos: nat, ins: seq<T>): (r: seq<T>)
    requires pos <= |s|
    ensures |r| == |s| + |ins|
    ensures forall k {:trigger r[k]} :: 0 <= k < pos ==> r[k] == s[k]
    ensures forall k :: pos <= k < pos + |ins| ==> r[k] == ins[k - pos]
    ensures forall k :: pos + |ins| <= k < |r| ==> r[k] == s[k - |ins|]
    ensures ins == [] ==> r == s
  {
    s[..pos] + ins + s[pos..]
  }

  /** `s` without the half-open range [first, last); the suffix moves left by last - first. */
  function Erased<T>(s: seq<T>, first: nat, last: nat): (r: seq<T>)
    requires first <= last <= |s|
    ensures |r| == |s| - (last - first)
    ensures forall k {:trigger r[k]} :: 0 <= k < first ==> r[k] == s[k]
    ensures forall k :: first <= k < |r| ==> r[k] == s[k + (last - first)]
    ensures first == last ==> r == s
    ensures first == 0 && last == |s| ==> r == []
  {
    s[..first] + s[last..]
  }

  /** n copies of x. */
  function Repeat<T>(x: T, n: nat): (r: seq<T>)
    ensures |r| == n
    ensures forall k :: 0 <= k < n ==> r[k] == x
  {
    seq(n, _ => x)
  }

  /** An array whose first n slots agree with s before pos, with ins from pos on and with the shifted suffix after it holds Inserted(s, pos, ins) there. */
  lemma ArrayInserted<T>(a: array<T>, n: nat, s: seq<T>, pos: nat, ins: seq<T>)
    requires n <= a.Length && pos <= |s| && n == |s| + |ins|
    requires forall k {:trigger a[k]} :: 0 <= k < pos ==> a[k] == s[k]
    requires forall k :: pos <= k < pos + |ins| ==> a[k] == ins[k - pos]
    requires forall k :: pos + |ins| <= k < n ==> a[k] == s[k - |ins|]
    ensures a[..n] == Inserted(s, pos, ins)
  {
  }

  /** Erasing exactly the block that was inserted gives back the original sequence. */
  lemma EraseAfterInsert<T>(s: seq<T>, pos: nat, ins: seq<T>)
    requires pos <= |s|
    ensures Erased(Inserted(s, pos, ins), pos, pos + |ins|) == s
  {
  }

  /** Inserting one value and erasing it again, the single-element round trip. */
  lemma EraseOneAfterInsertOne<T>(s: seq<T>, pos: nat, x: T)
    requires pos <= |s|
    ensures Inserted(s, pos, [x])[pos] == x
    ensures Erased(Inserted(s, pos, [x]), pos, pos + 1) == s
  {
  }

  /** Two consecutive insertions at the same position equal one insertion of the concatenation. */
  lemma InsertTwice<T>(s: seq<T>, pos: nat, a: seq<T>, b: seq<T>)
    requires pos <= |s|
    ensures Inserted(Inserted(s, pos, b), pos, a) == Inserted(s, pos, a + b)
  {
  }
}
