/**
  The comparison operators of the vector, instantiated with `int` elements.
  `compare` scans both sequences up to the shorter length; the first pair that
  differs decides with the operator's relation; when none differs the
  relation is applied to the two sizes (cast to the element type, which for
  `int` is the identity).
 */
module Ordering {

  /** The four relations the operators pass to `compare`. */
  datatype Relation = Less | LessEqual | Greater | GreaterEqual

  function Holds(op: Relation, a: int, b: int): bool
  {
    match op
    case Less => a < b
    case LessEqual => a <= b
    case Greater => a > b
    case GreaterEqual => a >= b
  }

  /** `compare` from index i on (i never exceeds the shorter length). */
  function CompareFrom(op: Relation, s: seq<int>, t: seq<int>, i: nat): (r: bool)
    requires i <= |s| && i <= |t|
    ensures s[i..] == t[i..] ==> (r <==> op == LessEqual || op == GreaterEqual)
    decreases |s| - i
  {
    if i == |s| || i == |t| then Holds(op, |s|, |t|)
    else if s[i] != t[i] then Holds(op, s[i], t[i])
    else CompareFrom(op, s, t, i + 1)
  }

  /** The result of `compare(rhs, op)` on the contents s (left) and t (right). */
  function Compare(op: Relation, s: seq<int>, t: seq<int>): (r: bool)
    ensures s == t ==> (r <==> op == LessEqual || op == GreaterEqual)
  {
    CompareFrom(op, s, t, 0)
  }

  /** k is where s and t first differ, or the shorter length when one is a prefix of the other. */
  ghost predicate FirstDifference(s: seq<int>, t: seq<int>, k: nat)
  {
    k <= |s| && k <= |t| && s[..k] == t[..k] && (k < |s| && k < |t| ==> s[k] != t[k])
  }

  /** The first difference exists. */
  lemma {:induction false} FirstDifferenceExists(s: seq<int>, t: seq<int>, i: nat) returns (k: nat)
    requires i <= |s| && i <= |t| && s[..i] == t[..i]
    ensures i <= k && FirstDifference(s, t, k)
    decreases |s| - i
  {
    if i == |s| || i == |t| || s[i] != t[i] {
      k := i;
    } else {
      assert s[..i + 1] == s[..i] + [s[i]] && t[..i + 1] == t[..i] + [t[i]];
      k := FirstDifferenceExists(s, t, i + 1);
    }
  }

  /** Any two first differences coincide. */
  lemma FirstDifferenceUnique(s: seq<int>, t: seq<int>, k: nat, m: nat)
    requires FirstDifference(s, t, k) && FirstDifference(s, t, m)
    ensures k == m
  {
  }

  /** The scan from any index up to the first difference is decided at the first difference. */
  lemma {:induction false} CompareFromDecided(op: Relation, s: seq<int>, t: seq<int>, i: nat, k: nat)
    requires FirstDifference(s, t, k) && i <= k
    ensures CompareFrom(op, s, t, i)
         == if k < |s| && k < |t| then Holds(op, s[k], t[k]) else Holds(op, |s|, |t|)
    decreases k - i
  {
    if i < k {
      assert s[..k][i] == t[..k][i];
      CompareFromDecided(op, s, t, i + 1, k);
    }
  }

  /** Compare is decided by the first difference: its pair if both have one there, else the sizes. */
  lemma CompareDecided(op: Relation, s: seq<int>, t: seq<int>) returns (k: nat)
    ensures FirstDifference(s, t, k)
    ensures Compare(op, s, t)
         == if k < |s| && k < |t| then Holds(op, s[k], t[k]) else Holds(op, |s|, |t|)
  {
    k := FirstDifferenceExists(s, t, 0);
    CompareFromDecided(op, s, t, 0, k);
  }

  /** The textbook lexicographic order, independent of `compare`'s scan. */
  ghost predicate LexLess(s: seq<int>, t: seq<int>)
  {
    exists k: nat :: k <= |s| && k <= |t| && s[..k] == t[..k] &&
      ((k < |s| && k < |t| && s[k] < t[k]) || (k == |s| && k < |t|))
  }

  /** operator< is the lexicographic order, in both directions. */
  lemma LessIsLexicographic(s: seq<int>, t: seq<int>)
    ensures Compare(Less, s, t) <==> LexLess(s, t)
  {
    var k := CompareDecided(Less, s, t);
    if LexLess(s, t) {
      var m: nat :| m <= |s| && m <= |t| && s[..m] == t[..m] &&
        ((m < |s| && m < |t| && s[m] < t[m]) || (m == |s| && m < |t|));
      assert FirstDifference(s, t, m);
      FirstDifferenceUnique(s, t, k, m);
    }
    if Compare(Less, s, t) {
      assert k <= |s| && k <= |t| && s[..k] == t[..k];
    }
  }

  /** A proper prefix is less than the longer sequence: {1,2,3} < {1,2,3,0}. */
  lemma PrefixIsLess(s: seq<int>, t: seq<int>)
    requires |s| < |t| && s == t[..|s|]
    ensures Compare(Less, s, t) && !Compare(Less, t, s)
  {
    var k := CompareDecided(Less, s, t);
    var m := CompareDecided(Less, t, s);
    assert s[..|s|] == t[..|s|];
    assert FirstDifference(s, t, |s|);
    FirstDifferenceUnique(s, t, k, |s|);
    assert FirstDifference(t, s, |s|);
    FirstDifferenceUnique(t, s, m, |s|);
  }

  /** operator<= holds exactly when operator< holds or the contents are equal. */
  lemma LessEqualIsLessOrEqual(s: seq<int>, t: seq<int>)
    ensures Compare(LessEqual, s, t) <==> Compare(Less, s, t) || s == t
  {
    var k := CompareDecided(LessEqual, s, t);
    var k' := CompareDecided(Less, s, t);
    FirstDifferenceUnique(s, t, k, k');
    if k < |s| && k < |t| {
      assert s[k] != t[k];
    } else if |s| == |t| {
      assert s == s[..k] && t == t[..k];
    } else {
      assert |s| != |t|;
    }
  }

  /** The first difference of s and t is the first difference of t and s. */
  lemma FirstDifferenceSymmetric(s: seq<int>, t: seq<int>, k: nat)
    requires FirstDifference(s, t, k)
    ensures FirstDifference(t, s, k)
  {
  }

  /** operator> and operator>= are operator< and operator<= with the operands swapped. */
  lemma GreaterIsSwappedLess(s: seq<int>, t: seq<int>)
    ensures Compare(Greater, s, t) <==> Compare(Less, t, s)
    ensures Compare(GreaterEqual, s, t) <==> Compare(LessEqual, t, s)
  {
    var k := CompareDecided(Greater, s, t);
    var m := CompareDecided(Less, t, s);
    var k' := CompareDecided(GreaterEqual, s, t);
    var m' := CompareDecided(LessEqual, t, s);
    FirstDifferenceSymmetric(s, t, k);
    FirstDifferenceUnique(t, s, k, m);
    FirstDifferenceUnique(s, t, k, k');
    FirstDifferenceUnique(t, s, k, m');
  }

  /** Exactly one of s < t, s == t, t < s holds; and s >= t is the negation of s < t. */
  lemma Trichotomy(s: seq<int>, t: seq<int>)
    ensures Compare(Less, s, t) || s == t || Compare(Less, t, s)
    ensures !(Compare(Less, s, t) && Compare(Less, t, s))
    ensures s == t ==> !Compare(Less, s, t)
    ensures Compare(GreaterEqual, s, t) <==> !Compare(Less, s, t)
  {
    var k := CompareDecided(Less, s, t);
    var m := CompareDecided(Less, t, s);
    var g := CompareDecided(GreaterEqual, s, t);
    FirstDifferenceSymmetric(s, t, k);
    FirstDifferenceUnique(t, s, k, m);
    FirstDifferenceUnique(s, t, k, g);
    if !(k < |s| && k < |t|) && |s| == |t| {
      assert s == s[..k] && t == t[..k];
    }
  }
}
