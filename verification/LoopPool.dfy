/** `net/EventLoopThreadPool.cpp`: round robin over the worker loops with an `int` counter that wraps. */
module LoopPool {

  const INT_MIN: int := -0x8000_0000
  const INT_MAX: int := 0x7fff_ffff
  const SIZE_T: int := 0x1_0000_0000_0000_0000

  /** `fetch_add(1)` on an atomic `int` wraps. */
  function Next(v: int): int {
    if v == INT_MAX then INT_MIN else v + 1
  }

  /** The index expression: the `int` is converted to `size_t` before the remainder. */
  function Index(v: int, n: nat): (i: nat)
    requires n > 0 && INT_MIN <= v <= INT_MAX
    ensures i < n
  {
    (v % SIZE_T) % n
  }

  /** The counter after k calls. */
  function After(k: nat): (v: int)
    ensures INT_MIN <= v <= INT_MAX
    ensures k <= INT_MAX ==> v == k
  {
    if k == 0 then 0 else Next(After(k - 1))
  }

  /** How many of the first k assignments went to loop i. */
  function Load(k: nat, n: nat, i: nat): nat
    requires n > 0
  {
    if k == 0 then 0 else Load(k - 1, n, i) + if Index(After(k - 1), n) == i then 1 else 0
  }

  lemma DivStep(k: nat, n: nat)
    requires n > 0
    ensures (k + 1) % n == if k % n == n - 1 then 0 else k % n + 1
    ensures (k + 1) / n == if k % n == n - 1 then k / n + 1 else k / n
  {
    var q, r := k / n, k % n;
    assert k == q * n + r;
    if r == n - 1 {
      assert k + 1 == (q + 1) * n + 0;
      Unique(k + 1, n, q + 1, 0);
    } else {
      Unique(k + 1, n, q, r + 1);
    }
  }

  lemma Unique(x: nat, n: nat, q: nat, r: nat)
    requires n > 0 && x == q * n + r && r < n
    ensures x / n == q && x % n == r
  {
    var d := x / n - q;
    assert x == (x / n) * n + x % n;
    assert d * n == r - x % n;
    assert d >= 1 ==> d * n >= n;
    assert d <= -1 ==> (-d) * n >= n;
  }

  /** Before the counter wraps, loop i has its share: one for each full round, and one more if it was
      already visited in the current one. */
  lemma {:induction false} LoadShare(k: nat, n: nat, i: nat)
    requires n > 0 && i < n && k <= INT_MAX + 1
    ensures Load(k, n, i) == k / n + if i < k % n then 1 else 0
    decreases k
  {
    if k > 0 {
      LoadShare(k - 1, n, i);
      DivStep(k - 1, n);
      BeforeWrap(k - 1, n);
    } else {
      Unique(0, n, 0, 0);
    }
  }

  lemma BeforeWrap(k: nat, n: nat)
    requires n > 0 && k <= INT_MAX
    ensures Index(After(k), n) == k % n
  {
    AsSizeT(k);
  }

  /** Over the first 2^31 assignments no two loops differ by more than one. */
  lemma Balanced(k: nat, n: nat, i: nat, j: nat)
    requires n > 0 && i < n && j < n && k <= INT_MAX + 1
    ensures -1 <= Load(k, n, i) - Load(k, n, j) <= 1
  {
    LoadShare(k, n, i);
    LoadShare(k, n, j);
  }

  lemma AsSizeT(v: int)
    requires INT_MIN <= v <= INT_MAX
    ensures v % SIZE_T == if v < 0 then v + SIZE_T else v
  {
  }

  /** The rotation steps to the following loop on every call but the two at which the counter jumps. */
  lemma Rotation(v: int, n: nat)
    requires n > 0 && INT_MIN <= v < INT_MAX && v != -1
    ensures Index(Next(v), n) == (Index(v, n) + 1) % n
  {
    AsSizeT(v);
    AsSizeT(v + 1);
    Shift(v % SIZE_T, n);
  }

  /** Where the counter turns negative the rotation goes on exactly when the number of loops divides
      2^64 - 2^32, and where it returns to zero exactly when it divides 2^64. */
  lemma RotationAtJumps(n: nat)
    requires n > 0
    ensures Index(Next(INT_MAX), n) == (Index(INT_MAX, n) + 1) % n <==> (SIZE_T - 0x1_0000_0000) % n == 0
    ensures Index(Next(-1), n) == (Index(-1, n) + 1) % n <==> SIZE_T % n == 0
  {
    AsSizeT(INT_MAX);
    AsSizeT(INT_MIN);
    Shift(INT_MAX, n);
    SameRemainder(INT_MAX + 1, INT_MIN + SIZE_T, n);
    AsSizeT(-1);
    AsSizeT(0);
    Shift(SIZE_T - 1, n);
    Unique(0, n, 0, 0);
  }

  lemma Shift(u: nat, n: nat)
    requires n > 0
    ensures (u + 1) % n == (u % n + 1) % n
  {
    DivStep(u, n);
    if u % n + 1 < n { Unique(u % n + 1, n, 0, u % n + 1); } else { Unique(n, n, 1, 0); }
  }

  lemma SameRemainder(a: nat, b: nat, n: nat)
    requires n > 0 && a <= b
    ensures a % n == b % n <==> (b - a) % n == 0
  {
    var qa, ra, qb, rb := a / n, a % n, b / n, b % n;
    var q, r := (b - a) / n, (b - a) % n;
    assert a == qa * n + ra && b == qb * n + rb && b - a == q * n + r;
    if ra == rb {
      Multiples(qb - qa, q, n, r);
    } else if r == 0 {
      Multiples(qa + q, qb, n, rb - ra);
    }
  }

  /** Multiples of n that differ by less than n are equal. */
  lemma Multiples(p: int, q: int, n: nat, r: int)
    requires n > 0 && p * n == q * n + r && r < n && -r < n
    ensures r == 0
  {
    var d := p - q;
    assert d * n == r;
    assert d >= 1 ==> d * n >= n;
    assert d <= -1 ==> (-d) * n >= n;
  }

  class EventLoopThreadPool {
    var next: int
    var loops: nat                  // number of worker loops; 0 means the base loop serves all

    ghost predicate Valid()
      reads this
    {
      INT_MIN <= next <= INT_MAX
    }

    constructor (loops: nat)
      ensures Valid() && next == 0 && this.loops == loops
    {
      next, this.loops := 0, loops;
    }

    /** A valid worker, or -1 for the base loop. */
    method GetNextLoop() returns (worker: int)
      requires Valid()
      modifies this`next
      ensures Valid()
      ensures loops == 0 ==> worker == -1 && next == old(next)
      ensures loops > 0 ==> 0 <= worker < loops && worker == Index(old(next), loops) && next == Next(old(next))
    {
      if loops > 0 {
        worker := (next % SIZE_T) % loops;
        next := if next == INT_MAX then INT_MIN else next + 1;
      } else {
        worker := -1;
      }
    }
  }
}
