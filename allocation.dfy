/** The allocation loop of main.c:47 and main.c:56-68: `max_primes` starts at 16000000000
    and is halved before every `calloc`, until an allocation succeeds with more than 1000
    slots. `calloc` is modelled by a predicate on the requested size. */
module Allocation {

  /** `max_primes` before the loop (main.c:47). */
  const Initial: nat := 16000000000

  /** The loop keeps going while `max_primes <= 1000` (main.c:61). */
  const Floor: nat := 1000

  /** The size passed to `calloc` at attempt `k` (counting from 0): the initial value halved
      `k + 1` times by integer division (main.c:58). */
  function Tried(k: nat): nat
  {
    if k == 0 then Initial / 2 else Tried(k - 1) / 2
  }

  function Pow2(k: nat): (p: nat)
    ensures p >= 1
  {
    if k == 0 then 1 else 2 * Pow2(k - 1)
  }

  lemma {:induction false} Pow2Add(a: nat, b: nat)
    ensures Pow2(a + b) == Pow2(a) * Pow2(b)
  {
    if a > 0 {
      Pow2Add(a - 1, b);
      assert Pow2(a + b) == 2 * Pow2(a - 1 + b);
    }
  }

  lemma MulMonotone(x: nat, y: nat, d: nat)
    requires x <= y
    ensures x * d <= y * d
  {
    assert y * d == x * d + (y - x) * d;
  }

  lemma DivUnique(a: nat, d: nat, q: nat, r: nat)
    requires d > 0 && r < d && a == q * d + r
    ensures a / d == q
  {
    var q' := a / d;
    var r' := a % d;
    assert a == q' * d + r' && r' < d;
    assert (q' + 1) * d == q' * d + d && (q + 1) * d == q * d + d;
    if q' < q {
      MulMonotone(q' + 1, q, d);
      assert false;
    } else if q' > q {
      MulMonotone(q + 1, q', d);
      assert false;
    }
  }

  lemma DivTwice(a: nat, b: nat)
    requires b > 0
    ensures a / b / 2 == a / (2 * b)
  {
    var q := a / b;
    var r := a % b;
    var q2 := q / 2;
    var h := q % 2 * b;
    assert a == q * b + r;
    assert q == 2 * q2 + q % 2;
    assert q * b == (2 * q2) * b + h;
    assert (2 * q2) * b == q2 * (2 * b);
    assert h <= b by {
      MulMonotone(q % 2, 1, b);
    }
    DivUnique(a, 2 * b, q2, h + r);
  }

  /** The sizes tried are the initial value divided by successive powers of two; the
      first is 8000000000. */
  lemma {:induction false} TriedClosedForm(k: nat)
    ensures Tried(k) == Initial / Pow2(k + 1)
  {
    if k > 0 {
      TriedClosedForm(k - 1);
      DivTwice(Initial, Pow2(k));
    }
  }

  lemma {:induction false} TriedDecreasing(j: nat, k: nat)
    requires j <= k
    ensures Tried(k) <= Tried(j)
    decreases k - j
  {
    if j < k {
      TriedDecreasing(j, k - 1);
    }
  }

  lemma Pow2Of23()
    ensures Pow2(23) == 8388608
  {
    Pow2Add(12, 11);
    Pow2Add(6, 6);
    Pow2Add(6, 5);
    assert Pow2(6) == 64 && Pow2(5) == 32;
  }

  lemma LastLargeAttempt()
    ensures Tried(22) == 1907 && Tried(23) == 953
  {
    TriedClosedForm(22);
    Pow2Of23();
    DivUnique(Initial, 8388608, 1907, Initial - 1907 * 8388608);
  }

  /** Exactly the first 23 attempts ask for more than 1000 slots: the 23rd asks for 1907,
      the 24th for 953. */
  lemma LargeAttempts(k: nat)
    ensures Tried(k) > Floor <==> k <= 22
  {
    LastLargeAttempt();
    if k <= 22 {
      TriedDecreasing(k, 22);
    } else {
      TriedDecreasing(23, k);
    }
  }

  /** How the loop ends: `Allocated` when `calloc` returned a block of more than 1000 slots,
      `Spins` when `max_primes` has dropped to 1000 or below; from there the loop guard of
      main.c:61 holds on every pass whatever `calloc` returns, so the source never leaves
      the loop. `attempts` counts the calls to `calloc`. */
  datatype Plan = Allocated(size: nat, attempts: nat) | Spins(size: nat, attempts: nat)

  /** The `do ... while` of main.c:56-61, with `canAlloc(n)` standing for
      `calloc(n, sizeof(uint64_t)) != NULL`. */
  method PlanCapacity(canAlloc: nat -> bool) returns (p: Plan)
    ensures 1 <= p.attempts && p.size == Tried(p.attempts - 1)
    ensures forall k :: 0 <= k < p.attempts - 1 ==> Tried(k) > Floor && !canAlloc(Tried(k))
    ensures p.Allocated? ==> p.size > Floor && canAlloc(p.size)
    ensures p.Spins? ==> p.size <= Floor
  {
    var maxPrimes := Initial;
    maxPrimes := maxPrimes / 2;
    var obtained := canAlloc(maxPrimes);
    var attempts := 1;
    while !obtained || maxPrimes <= Floor
      invariant 1 <= attempts && maxPrimes == Tried(attempts - 1)
      invariant obtained == canAlloc(maxPrimes)
      invariant forall k :: 0 <= k < attempts - 1 ==> Tried(k) > Floor && !canAlloc(Tried(k))
      decreases maxPrimes
    {
      if maxPrimes <= Floor {
        // the guard stays true from here on: the source loops forever
        return Spins(maxPrimes, attempts);
      }
      maxPrimes := maxPrimes / 2;
      obtained := canAlloc(maxPrimes);
      attempts := attempts + 1;
    }
    // the loop left with `max_primes > 1000`: the check of main.c:64-68 never fires
    assert maxPrimes > Floor;
    p := Allocated(maxPrimes, attempts);
  }

  /** Once `max_primes <= 1000`, halving keeps it there: the guard `max_primes <= 1000` of
      main.c:61 holds on every later pass, so the loop never exits. */
  lemma {:induction false} SpinsForever(k: nat, n: nat)
    requires Tried(k) <= Floor && k <= n
    ensures Tried(n) <= Floor
  {
    TriedDecreasing(k, n);
  }

  /** The loop calls `calloc` at most 24 times before it either has its block or is stuck:
      it is stuck exactly when the first 23 sizes (8000000000 down to 1907) all failed. */
  lemma PlanAttempts(canAlloc: nat -> bool, p: Plan)
    requires 1 <= p.attempts && p.size == Tried(p.attempts - 1)
    requires forall k :: 0 <= k < p.attempts - 1 ==> Tried(k) > Floor && !canAlloc(Tried(k))
    requires p.Allocated? ==> p.size > Floor && canAlloc(p.size)
    requires p.Spins? ==> p.size <= Floor
    ensures p.attempts <= 24
    ensures p.Spins? <==> p.attempts == 24 && forall k :: 0 <= k < 23 ==> !canAlloc(Tried(k))
    ensures p.Spins? ==> p.size == Tried(23)
    ensures p.Allocated? ==> p.attempts <= 23
  {
    var a := p.attempts - 1;
    LargeAttempts(a);
    LargeAttempts(23);
  }
}
