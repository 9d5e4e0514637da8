/**
  The vector's capacity policy on plain numbers: the growth targets chosen by
  ensure_capacity, push_back/insert, reserve/resize, and what a run of
  push_backs costs in reallocations.  Sizes are unbounded naturals: the
  fixed-width overflow of `<< 2` is not modelled.
 */
module Growth {

  /** ensure_capacity(required): quadruple the requirement when it exceeds the capacity. */
  function EnsureCapacity(required: nat, cap: nat): (r: nat)
    ensures r >= required && r >= cap
    ensures r == cap <==> required <= cap
    ensures r != cap ==> r == 4 * required
  {
    if required > cap then required * 4 else cap
  }

  /** reserve(n), and the growth step of resize(n): the least capacity that holds n and the current one. */
  function ReserveCapacity(n: nat, cap: nat): (r: nat)
    ensures r >= n && r >= cap
    ensures r == n || r == cap
    ensures r == cap <==> n <= cap
  {
    if n > cap then n else cap
  }

  /** push_back, emplace_back, insert(pos, val) and emplace: capacity times four when full, else unchanged. */
  function PushBackCapacity(size: nat, cap: nat): (r: nat)
    requires size <= cap
    ensures r >= cap
    ensures r == cap <==> size < cap || cap == 0
    ensures r != cap ==> r == 4 * cap
  {
    if size == cap then cap * 4 else cap
  }

  /** After the step there is a free slot for the new element exactly when the capacity was not 0. */
  lemma PushBackRoom(size: nat, cap: nat)
    requires size <= cap
    ensures PushBackCapacity(size, cap) > size <==> cap > 0
  {
  }

  /** 4 to the power n, the factor n reallocations multiply the capacity by. */
  function Pow4(n: nat): (r: nat)
    ensures r >= 1
  {
    if n == 0 then 1 else 4 * Pow4(n - 1)
  }

  /** Capacity after n push_backs starting from (size, cap), and how many of them reallocated. */
  function PushBackRun(size: nat, cap: nat, n: nat): (r: (nat, nat))
    requires size <= cap
    ensures r.0 >= cap && r.1 <= n
    ensures r.1 == 0 ==> r.0 == cap
    decreases n
  {
    if n == 0 then (cap, 0)
    else
      var next := PushBackCapacity(size, cap);
      var (last, reallocs) := if next > size then PushBackRun(size + 1, next, n - 1) else (next, 0);
      (last, reallocs + if size == cap then 1 else 0)
  }

  /**
    A run of n push_backs from a non-zero capacity always has room, ends with
    the starting capacity times 4 to the number of reallocations, and, once
    at least one reallocation happened, the final capacity is at most four
    times the final size: the reallocation count is logarithmic in the size.
   */
  lemma {:induction false} PushBackRunBounds(size: nat, cap: nat, n: nat)
    requires 0 < cap && size <= cap
    ensures PushBackRun(size, cap, n).0 >= size + n
    ensures PushBackRun(size, cap, n).0 == cap * Pow4(PushBackRun(size, cap, n).1)
    ensures PushBackRun(size, cap, n).1 > 0 ==> PushBackRun(size, cap, n).0 <= 4 * (size + n)
    decreases n
  {
    if n > 0 {
      var next := PushBackCapacity(size, cap);
      PushBackRoom(size, cap);
      PushBackRunBounds(size + 1, next, n - 1);
      var rest := PushBackRun(size + 1, next, n - 1);
      assert PushBackRun(size, cap, n) == (rest.0, rest.1 + if size == cap then 1 else 0);
      if size == cap {
        Pow4Step(cap, rest.1);
      }
    }
  }

  /** One more factor of four: cap * 4^(k+1) is (4 * cap) * 4^k. */
  lemma Pow4Step(cap: nat, k: nat)
    ensures cap * Pow4(k + 1) == (4 * cap) * Pow4(k)
  {
  }
}
