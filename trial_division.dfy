/** The trial-division engine of main.c:88-119: the prime buffer `ram_buffer[0..found)`
    is extended one candidate at a time, each candidate being divided by the stored values
    in index order until a stored value's square reaches it. */
module TrialDivision {

  /** 2^32. The model keeps every value the engine touches below it, so that `i + 2`
      (main.c:95) and `p * p` (main.c:102), which the source computes in uint64_t,
      never wrap. */
  const U32: nat := 0x1_0000_0000

  /** 2^64, the modulus of the source's uint64_t arithmetic. */
  const U64: nat := 0x1_0000_0000_0000_0000

  /** Every stored value can be divided by: the source computes `i % ram_buffer[j]`. */
  predicate Positive(s: seq<nat>)
  {
    forall j :: 0 <= j < |s| ==> s[j] > 0
  }

  predicate Fits32(s: seq<nat>)
  {
    forall j :: 0 <= j < |s| ==> s[j] < U32
  }

  predicate Increasing(s: seq<nat>)
  {
    forall j, k :: 0 <= j < k < |s| ==> s[j] < s[k]
  }

  lemma SquareMonotone(a: nat, b: nat)
    requires a <= b
    ensures a * a <= b * b
  {
    calc {
      a * a;
    <= a * b;
    <= b * b;
    }
  }

  lemma SquareStrict(a: nat, b: nat)
    requires a < b
    ensures a * a < b * b
  {
    calc {
      a * a;
    <= a * b;
    <  b * b;
    }
  }

  /** The index at which the scan of main.c:99-110, started at index `j`, stops on the
      bound test of main.c:102: the first stored value from `j` on whose square is at
      least `c`, or `|s|` when there is none. */
  function CutFrom(s: seq<nat>, c: nat, j: nat): (k: nat)
    requires j <= |s|
    ensures j <= k <= |s|
    decreases |s| - j
  {
    if j == |s| || s[j] * s[j] >= c then j else CutFrom(s, c, j + 1)
  }

  function Cut(s: seq<nat>, c: nat): (k: nat)
    ensures k <= |s|
  {
    CutFrom(s, c, 0)
  }

  /** The cut is the first index whose square reaches `c`: every value before it has a
      square below `c`. */
  lemma {:induction false} CutIsFirstSquareAtLeast(s: seq<nat>, c: nat, j: nat)
    requires j <= |s|
    ensures forall m :: j <= m < CutFrom(s, c, j) ==> s[m] * s[m] < c
    ensures CutFrom(s, c, j) < |s| ==> s[CutFrom(s, c, j)] * s[CutFrom(s, c, j)] >= c
    decreases |s| - j
  {
    if j < |s| && s[j] * s[j] < c {
      CutIsFirstSquareAtLeast(s, c, j + 1);
    }
  }

  /** The scan of main.c:99-110 from index `j` on: it accepts `c` (leaves `not_divisible`
      true) when it runs out of stored values or reaches one whose square is at least `c`
      (main.c:102), and rejects `c` at the first stored value that divides it (main.c:105),
      whichever comes first. */
  predicate ScanFrom(s: seq<nat>, c: nat, j: nat)
    requires Positive(s) && j <= |s|
    decreases |s| - j
  {
    j == |s| || s[j] * s[j] >= c || (c % s[j] != 0 && ScanFrom(s, c, j + 1))
  }

  /** The outcome of the whole scan: `not_divisible` after main.c:110. */
  predicate Accepted(s: seq<nat>, c: nat)
    requires Positive(s)
  {
    ScanFrom(s, c, 0)
  }

  /** The scan rejects `c` exactly when some stored value before the cut divides it. */
  lemma {:induction false} ScanByCut(s: seq<nat>, c: nat, j: nat)
    requires Positive(s) && j <= |s|
    ensures ScanFrom(s, c, j) <==> forall m :: j <= m < CutFrom(s, c, j) ==> c % s[m] != 0
    decreases |s| - j
  {
    if j < |s| && s[j] * s[j] < c {
      ScanByCut(s, c, j + 1);
    }
  }

  lemma AcceptedByCut(s: seq<nat>, c: nat)
    requires Positive(s)
    ensures Accepted(s, c) <==> forall j :: 0 <= j < Cut(s, c) ==> c % s[j] != 0
  {
    ScanByCut(s, c, 0);
  }

  /** The inner `for` loop of main.c:99-110, run on the buffer as it stands. */
  method Scan(buf: array<nat>, found: nat, i: nat) returns (notDivisible: bool)
    requires found <= buf.Length
    requires Positive(buf[..found]) && Fits32(buf[..found])
    ensures notDivisible == Accepted(buf[..found], i)
  {
    ghost var s := buf[..found];
    notDivisible := true;
    var j := 0;
    while j < found
      invariant j <= found
      invariant Accepted(s, i) == ScanFrom(s, i, j)
    {
      assert s[j] == buf[j];
      SquareStrict(buf[j], U32);
      assert buf[j] * buf[j] < U64;  // the uint64_t product of main.c:102 does not wrap
      if buf[j] * buf[j] >= i {
        break;
      }
      if i % buf[j] == 0 {
        notDivisible := false;
        break;
      }
      j := j + 1;
    }
  }

  /** One iteration's effect on the store: the candidate is appended when accepted
      (main.c:113-116). */
  function Extend(s: seq<nat>, c: nat): (t: seq<nat>)
    requires Positive(s) && c > 0
    ensures Positive(t)
    ensures Accepted(s, c) ==> t == s + [c]
    ensures !Accepted(s, c) ==> t == s
  {
    if Accepted(s, c) then s + [c] else s
  }

  /** Where the engine stands when it returns: the store `ram_buffer[0..found)`, the last
      candidate `i`, the number of iterations (= calls of `kbhit()`) and whether the
      `do ... while` of main.c:92-119 exited. */
  datatype Outcome = Outcome(store: seq<nat>, candidate: nat, polls: nat, stopped: bool)

  /** The session of main.c:92-119 from store `s` and candidate `i`, with capacity `cap`
      (`max_primes`). `keys[k]` is what `kbhit()` answers after iteration `k`. The loop
      exits after an iteration whose poll is true or that left `found >= cap - 1`; when
      `keys` runs out first, the result is the state reached so far with `stopped == false`. */
  function Session(s: seq<nat>, i: nat, cap: nat, keys: seq<bool>): Outcome
    requires Positive(s)
    decreases |keys|
  {
    if keys == [] then Outcome(s, i, 0, false)
    else
      var t := Extend(s, i + 2);
      if keys[0] || |t| + 1 >= cap then Outcome(t, i + 2, 1, true)
      else
        var o := Session(t, i + 2, cap, keys[1..]);
        o.(polls := o.polls + 1)
  }

  /** One iteration of the session, unrolled at the `n`-th poll. */
  lemma SessionUnroll(s: seq<nat>, i: nat, cap: nat, keys: seq<bool>, n: nat)
    requires Positive(s) && n < |keys|
    ensures var t := Extend(s, i + 2);
      var o := Session(s, i, cap, keys[n..]);
      if keys[n] || |t| + 1 >= cap then o == Outcome(t, i + 2, 1, true)
      else var r := Session(t, i + 2, cap, keys[n + 1..]); o == r.(polls := r.polls + 1)
  {
    assert keys[n..][0] == keys[n] && keys[n..][1..] == keys[n + 1..];
  }

  /** The engine, in place on `buf` (`ram_buffer`, of length `max_primes`), from the
      `start` values that `restore` loaded. Returns the new `found`. */
  method Run(buf: array<nat>, start: nat, keys: seq<bool>) returns (found: nat, polls: nat, stopped: bool)
    requires 1 <= start < buf.Length
    requires Positive(buf[..start]) && Fits32(buf[..start])
    requires buf[start - 1] + 2 * |keys| < U32
    modifies buf
    ensures found <= buf.Length
    ensures var o := Session(old(buf[..start]), old(buf[start - 1]), buf.Length, keys);
      found == |o.store| && buf[..found] == o.store && polls == o.polls && stopped == o.stopped
    ensures buf[found..] == old(buf[found..])
  {
    ghost var whole := Session(buf[..start], buf[start - 1], buf.Length, keys);
    ghost var s := buf[..start];
    found := start;
    var i := buf[found - 1];
    polls, stopped := 0, false;
    assert keys[0..] == keys;
    while polls < |keys| && !stopped
      invariant start <= found <= buf.Length && polls <= |keys|
      invariant !stopped ==> found < buf.Length
      invariant i == old(buf[start - 1]) + 2 * polls
      invariant buf[..found] == s && |s| == found
      invariant Positive(s) && Fits32(s)
      invariant forall k :: found <= k < buf.Length ==> buf[k] == old(buf[k])
      invariant stopped ==> whole == Outcome(s, i, polls, true)
      invariant !stopped ==>
        var rest := Session(s, i, buf.Length, keys[polls..]);
        whole == rest.(polls := rest.polls + polls)
    {
      found, i, stopped, s := Pass(buf, found, i, keys, polls, whole, s);
      polls := polls + 1;
    }
    assert buf[found..] == old(buf[found..]);
  }

  /** One pass of the `do ... while` of main.c:92-119: the next candidate (main.c:95), the
      body, and the guard of main.c:119 with `keys[polls]` as the answer of `kbhit()`. The
      session still to run from here shrinks by this pass. */
  method Pass(buf: array<nat>, found: nat, i: nat, keys: seq<bool>, polls: nat, ghost whole: Outcome,
              ghost s: seq<nat>)
    returns (found': nat, i': nat, stopped: bool, ghost s': seq<nat>)
    requires polls < |keys| && found < buf.Length && 0 < i + 2 < U32
    requires buf[..found] == s && |s| == found && Positive(s) && Fits32(s)
    requires var rest := Session(s, i, buf.Length, keys[polls..]); whole == rest.(polls := rest.polls + polls)
    modifies buf
    ensures found <= found' <= buf.Length && i' == i + 2
    ensures !stopped ==> found' < buf.Length
    ensures buf[..found'] == s' && |s'| == found' && Positive(s') && Fits32(s')
    ensures forall k :: found' <= k < buf.Length ==> buf[k] == old(buf[k])
    ensures stopped ==> whole == Outcome(s', i', polls + 1, true)
    ensures !stopped ==>
      var rest := Session(s', i', buf.Length, keys[polls + 1..]); whole == rest.(polls := rest.polls + polls + 1)
  {
    SessionUnroll(s, i, buf.Length, keys, polls);
    i' := i + 2;
    found' := Iterate(buf, found, i');
    s' := Extend(s, i');
    stopped := keys[polls] || found' >= buf.Length - 1;
  }

  /** The body of the `do ... while` for candidate `i` (main.c:96-117): scan, and append
      `i` when it passes (`found++; ram_buffer[found - 1] = i;`). */
  method Iterate(buf: array<nat>, found: nat, i: nat) returns (found': nat)
    requires found < buf.Length && 0 < i < U32
    requires Positive(buf[..found]) && Fits32(buf[..found])
    modifies buf
    ensures found <= found' <= found + 1
    ensures buf[..found'] == Extend(old(buf[..found]), i)
    ensures Positive(buf[..found']) && Fits32(buf[..found'])
    ensures forall k :: found' <= k < buf.Length ==> buf[k] == old(buf[k])
  {
    ghost var before := buf[..found];
    var notDivisible := Scan(buf, found, i);
    found' := found;
    if notDivisible {
      found' := found' + 1;
      buf[found' - 1] := i;
      assert buf[..found'] == before + [i];
    }
  }

  // ----- what the engine does, proved about the specification -----

  /** Under strict order, the scan rejects exactly the candidates that some stored value
      with a square below the candidate divides. */
  lemma AcceptedIffNoSmallDivisor(s: seq<nat>, c: nat)
    requires Positive(s) && Increasing(s)
    ensures Accepted(s, c) <==> forall j :: 0 <= j < |s| && s[j] * s[j] < c ==> c % s[j] != 0
  {
    var k := Cut(s, c);
    CutIsFirstSquareAtLeast(s, c, 0);
    AcceptedByCut(s, c);
    forall j | 0 <= j < |s| && s[j] * s[j] < c
      ensures j < k
    {
      if j >= k {
        SquareMonotone(s[k], s[j]);
      }
    }
  }

  /** The bound test (main.c:102) comes before the divisibility test (main.c:105) and
      uses `>=`: a candidate equal to the square of the stored value at index `k` stops
      the scan at `k` itself, so that value is never tried as its divisor. */
  lemma SquareStopsAtItsRoot(s: seq<nat>, k: nat)
    requires Increasing(s) && k < |s|
    ensures Cut(s, s[k] * s[k]) == k
  {
    var c := Cut(s, s[k] * s[k]);
    CutIsFirstSquareAtLeast(s, s[k] * s[k], 0);
    if c < k {
      SquareStrict(s[c], s[k]);
    }
  }

  /** Hence the square of a stored value is accepted as soon as no smaller stored value
      divides it. */
  lemma SquareAccepted(s: seq<nat>, k: nat)
    requires Positive(s) && Increasing(s) && k < |s|
    ensures Accepted(s, s[k] * s[k]) <==> forall j :: 0 <= j < k ==> (s[k] * s[k]) % s[j] != 0
  {
    SquareStopsAtItsRoot(s, k);
    AcceptedByCut(s, s[k] * s[k]);
  }

  /** With the store `[2, 3, 5, 7]` the next candidate, 9 = 3 * 3, is appended:
      the stored values are not all prime. */
  lemma NineIsAppended(cap: nat)
    ensures Session([2, 3, 5, 7], 7, cap, [true]) == Outcome([2, 3, 5, 7, 9], 9, 1, true)
  {
    var s: seq<nat> := [2, 3, 5, 7];
    SquareStopsAtItsRoot(s, 1);
    assert Accepted(s, 9);
  }

  /** Each iteration adds exactly 2 to the candidate (main.c:95), polls `kbhit()` once,
      and appends at most one value; the stored prefix is never changed. */
  lemma SessionProgress(s: seq<nat>, i: nat, cap: nat, keys: seq<bool>)
    requires Positive(s)
    ensures var o := Session(s, i, cap, keys);
      o.polls <= |keys| && (keys != [] ==> o.polls >= 1)
      && o.candidate == i + 2 * o.polls && o.candidate % 2 == i % 2
      && |s| <= |o.store| <= |s| + o.polls && o.store[..|s|] == s
  {
    SessionCounts(s, i, cap, keys);
    SessionKeepsPrefix(s, i, cap, keys);
  }

  lemma {:induction false} SessionCounts(s: seq<nat>, i: nat, cap: nat, keys: seq<bool>)
    requires Positive(s)
    ensures var o := Session(s, i, cap, keys);
      o.polls <= |keys| && (keys != [] ==> o.polls >= 1) && o.candidate == i + 2 * o.polls
    decreases |keys|
  {
    if keys != [] {
      var t := Extend(s, i + 2);
      if !(keys[0] || |t| + 1 >= cap) {
        SessionCounts(t, i + 2, cap, keys[1..]);
      }
    }
  }

  lemma {:induction false} SessionKeepsPrefix(s: seq<nat>, i: nat, cap: nat, keys: seq<bool>)
    requires Positive(s)
    ensures var o := Session(s, i, cap, keys);
      |s| <= |o.store| <= |s| + o.polls && o.store[..|s|] == s
    decreases |keys|
  {
    if keys != [] {
      var t := Extend(s, i + 2);
      if !(keys[0] || |t| + 1 >= cap) {
        SessionKeepsPrefix(t, i + 2, cap, keys[1..]);
        var r := Session(t, i + 2, cap, keys[1..]);
        assert t[..|s|] == s;
        assert r.store[..|t|][..|s|] == r.store[..|s|];
      }
    }
  }

  /** The loop exits exactly when the source's guard (main.c:119) fails: after the first
      true poll, or once `found >= cap - 1`. Every write stays inside the buffer, and an
      uninterrupted session ends with `found == cap - 1` (or `cap`, when the store held
      `cap - 1` values on entry and the first candidate was accepted). */
  lemma {:induction false} SessionStop(s: seq<nat>, i: nat, cap: nat, keys: seq<bool>)
    requires Positive(s)
    ensures var o := Session(s, i, cap, keys);
      o.polls <= |keys|
      && (forall k :: 0 <= k < o.polls - 1 ==> !keys[k])
      && (o.stopped ==> 1 <= o.polls && (keys[o.polls - 1] || |o.store| + 1 >= cap))
      && (!o.stopped ==> o.polls == |keys| && (keys != [] ==> |o.store| + 1 < cap))
      && (|s| < cap ==> |o.store| <= cap)
      && (|s| + 1 < cap ==> |o.store| + 1 <= cap)
      && (o.stopped && |s| + 1 < cap && (forall k :: 0 <= k < |keys| ==> !keys[k]) ==> |o.store| + 1 == cap)
    ensures var o := Session(s, i, cap, keys);
      1 <= o.polls ==>
        var p := Session(s, i, cap, keys[..o.polls - 1]);
        !p.stopped && (o.polls >= 2 ==> |p.store| + 1 < cap)
    ensures |s| + 1 == cap && keys != [] && Accepted(s, i + 2) ==> |Session(s, i, cap, keys).store| == cap
    decreases |keys|
  {
    GuardHeldBefore(s, i, cap, keys);
    var o := Session(s, i, cap, keys);
    if keys != [] {
      var t := Extend(s, i + 2);
      if !(keys[0] || |t| + 1 >= cap) {
        SessionStop(t, i + 2, cap, keys[1..]);
        var r := Session(t, i + 2, cap, keys[1..]);
        forall k | 0 <= k < o.polls - 1
          ensures !keys[k]
        {
          if k > 0 {
            assert keys[k] == keys[1..][k - 1];
          }
        }
        if o.stopped && (forall k :: 0 <= k < |keys| ==> !keys[k]) {
          assert !keys[o.polls - 1];
        }
      }
    }
  }

  /** The iterations before the last one all passed the guard of main.c:119: replaying
      only their polls, the session has not stopped, and it left `found < cap - 1`. */
  lemma {:induction false} GuardHeldBefore(s: seq<nat>, i: nat, cap: nat, keys: seq<bool>)
    requires Positive(s)
    ensures var o := Session(s, i, cap, keys);
      keys != [] ==>
        1 <= o.polls <= |keys| &&
        var p := Session(s, i, cap, keys[..o.polls - 1]);
        !p.stopped && (o.polls >= 2 ==> |p.store| + 1 < cap)
    decreases |keys|
  {
    if keys != [] {
      var t := Extend(s, i + 2);
      assert keys[..0] == [];
      if !(keys[0] || |t| + 1 >= cap) {
        GuardHeldBefore(t, i + 2, cap, keys[1..]);
        var r := Session(t, i + 2, cap, keys[1..]);
        if r.polls >= 1 {
          assert keys[..r.polls] == [keys[0]] + keys[1..][..r.polls - 1];
          assert keys[..r.polls][1..] == keys[1..][..r.polls - 1];
        } else {
          assert keys[1..] == [];
        }
      }
    }
  }

  /** From an increasing store whose values are at most the first candidate's predecessor,
      the store stays strictly increasing, and every appended value lies between that start
      value and the last candidate and has its parity. */
  lemma {:induction false} SessionIncreasing(s: seq<nat>, i: nat, cap: nat, keys: seq<bool>)
    requires Positive(s) && Increasing(s) && forall x :: x in s ==> x <= i
    ensures var o := Session(s, i, cap, keys);
      Increasing(o.store)
      && forall n :: |s| <= n < |o.store| ==> i < o.store[n] <= o.candidate && o.store[n] % 2 == i % 2
    decreases |keys|
  {
    if keys != [] {
      var c := i + 2;
      var t := Extend(s, c);
      ExtendIncreasing(s, c);
      var o := Session(s, i, cap, keys);
      if keys[0] || |t| + 1 >= cap {
        assert o.store == t && o.candidate == c;
      } else {
        SessionIncreasing(t, c, cap, keys[1..]);
        SessionProgress(t, c, cap, keys[1..]);
        var r := Session(t, c, cap, keys[1..]);
        assert o.store == r.store && o.candidate == r.candidate;
        forall n | |s| <= n < |o.store|
          ensures i < o.store[n] <= o.candidate && o.store[n] % 2 == i % 2
        {
          if n < |t| {
            assert o.store[n] == r.store[..|t|][n] == c;
          }
        }
      }
    }
  }

  /** One iteration keeps the store increasing when the candidate exceeds every stored
      value. */
  lemma ExtendIncreasing(s: seq<nat>, c: nat)
    requires Positive(s) && Increasing(s) && c > 0 && forall x :: x in s ==> x < c
    ensures Increasing(Extend(s, c)) && forall x :: x in Extend(s, c) ==> x <= c
    ensures |Extend(s, c)| > |s| ==> Extend(s, c) == s + [c]
  {
    forall j | 0 <= j < |s|
      ensures s[j] < c
    {
      assert s[j] in s;
    }
  }

  /** The values of `t` below `c`, in order. */
  function Below(t: seq<nat>, c: nat): (r: seq<nat>)
    ensures forall x :: x in r <==> x in t && x < c
  {
    if t == [] then []
    else if t[0] < c then [t[0]] + Below(t[1..], c)
    else Below(t[1..], c)
  }

  lemma {:induction false} BelowConcat(a: seq<nat>, b: seq<nat>, c: nat)
    ensures Below(a + b, c) == Below(a, c) + Below(b, c)
  {
    if a != [] {
      assert (a + b)[0] == a[0];
      assert (a + b)[1..] == a[1..] + b;
      BelowConcat(a[1..], b, c);
      if a[0] < c {
        calc {
          Below(a + b, c);
          [a[0]] + Below(a[1..] + b, c);
          [a[0]] + (Below(a[1..], c) + Below(b, c));
          ([a[0]] + Below(a[1..], c)) + Below(b, c);
        }
      }
    } else {
      assert a + b == b;
    }
  }

  lemma {:induction false} BelowWhole(a: seq<nat>, c: nat)
    requires forall x :: x in a ==> x < c
    ensures Below(a, c) == a
  {
    if a != [] {
      assert a[0] in a;
      assert forall x :: x in a[1..] ==> x in a;
      BelowWhole(a[1..], c);
    }
  }

  lemma {:induction false} BelowNothing(a: seq<nat>, c: nat)
    requires forall x :: x in a ==> x >= c
    ensures Below(a, c) == []
  {
    if a != [] {
      assert a[0] in a;
      assert forall x :: x in a[1..] ==> x in a;
      BelowNothing(a[1..], c);
    }
  }

  /** When candidate `c` is tested, the store holds `s`, all below `c`; whatever the
      session appends afterwards lies above `c`. So the values below `c` in the final
      store are `s`, whether or not `c` itself was appended. */
  lemma BelowAtCandidate(s: seq<nat>, c: nat, mid: seq<nat>, rest: seq<nat>)
    requires forall x :: x in s ==> x < c
    requires mid == [] || mid == [c]
    requires forall x :: x in rest ==> x > c
    ensures Below(s + mid + rest, c) == s
    ensures c in s + mid + rest <==> mid == [c]
  {
    BelowConcat(s + mid, rest, c);
    BelowConcat(s, mid, c);
    BelowWhole(s, c);
    BelowNothing(mid, c);
    BelowNothing(rest, c);
  }

  /** The first candidate of a session is appended iff the store it was tested against
      accepts it; that store is the final store's values below the candidate. */
  lemma FirstCandidateExact(s: seq<nat>, i: nat, cap: nat, keys: seq<bool>)
    requires Positive(s) && Increasing(s) && forall x :: x in s ==> x <= i
    requires keys != []
    ensures var o := Session(s, i, cap, keys);
      Below(o.store, i + 2) == s && (i + 2 in o.store <==> Accepted(s, i + 2))
  {
    var o := Session(s, i, cap, keys);
    var c := i + 2;
    var t := Extend(s, c);
    ExtendIncreasing(s, c);
    var mid := t[|s|..];
    assert t == s + mid && (mid == [] || mid == [c]) && (mid == [c] <==> Accepted(s, c));
    if keys[0] || |t| + 1 >= cap {
      BelowAtCandidate(s, c, mid, []);
      assert o.store == s + mid + [];
    } else {
      AppendedLater(t, c, cap, keys[1..]);
      var r := Session(t, c, cap, keys[1..]);
      var rest := r.store[|t|..];
      assert o.store == s + mid + rest by {
        assert r.store == r.store[..|t|] + rest;
      }
      BelowAtCandidate(s, c, mid, rest);
    }
  }

  /** A session keeps the store it starts from as a prefix and appends only values above
      its start candidate. */
  lemma AppendedLater(t: seq<nat>, c: nat, cap: nat, keys: seq<bool>)
    requires Positive(t) && Increasing(t) && forall x :: x in t ==> x <= c
    ensures var r := Session(t, c, cap, keys);
      |t| <= |r.store| && r.store[..|t|] == t && forall x :: x in r.store[|t|..] ==> x > c
  {
    SessionIncreasing(t, c, cap, keys);
    SessionProgress(t, c, cap, keys);
    var r := Session(t, c, cap, keys);
    var rest := r.store[|t|..];
    forall x | x in rest
      ensures x > c
    {
      var n :| 0 <= n < |rest| && rest[n] == x;
      assert x == r.store[|t| + n];
    }
  }

  /** Each of the candidates `i + 2`, ..., `i + 2 * n` is in `store` iff the values of
      `store` below it accept it. */
  predicate TestedExactly(store: seq<nat>, i: nat, n: nat)
  {
    forall k :: 1 <= k <= n ==>
      Positive(Below(store, i + 2 * k))
      && (i + 2 * k in store <==> Accepted(Below(store, i + 2 * k), i + 2 * k))
  }

  /** Every tested candidate is appended iff the store as it stood when the candidate was
      tested accepts it. Since the store stays increasing, that store is exactly the final
      store's values below the candidate: the loaded values and everything appended earlier
      in the session (the scan bound `j < found` of main.c:99 uses the current `found`). */
  lemma {:induction false} SessionExact(s: seq<nat>, i: nat, cap: nat, keys: seq<bool>)
    requires Positive(s) && Increasing(s) && forall x :: x in s ==> x <= i
    ensures var o := Session(s, i, cap, keys); TestedExactly(o.store, i, o.polls)
    decreases |keys|
  {
    if keys != [] {
      var c := i + 2;
      var t := Extend(s, c);
      FirstCandidateExact(s, i, cap, keys);
      if !(keys[0] || |t| + 1 >= cap) {
        ExtendIncreasing(s, c);
        SessionExact(t, c, cap, keys[1..]);
        ExactStep(Session(s, i, cap, keys).store, i, Session(t, c, cap, keys[1..]).polls);
      }
    }
  }

  /** One candidate exact, and the `n` after it exact, make `n + 1` exact. */
  lemma ExactStep(store: seq<nat>, i: nat, n: nat)
    requires Positive(Below(store, i + 2))
    requires i + 2 in store <==> Accepted(Below(store, i + 2), i + 2)
    requires TestedExactly(store, i + 2, n)
    ensures TestedExactly(store, i, n + 1)
  {
    forall k | 2 <= k <= n + 1
      ensures Positive(Below(store, i + 2 * k))
      ensures i + 2 * k in store <==> Accepted(Below(store, i + 2 * k), i + 2 * k)
    {
      assert i + 2 * k == i + 2 + 2 * (k - 1);
    }
  }

  /** Starting from the store `[2]`, the candidates are all even: 4 is appended
      (2 * 2 >= 4 stops the scan before any division) and every later candidate is
      rejected by 2, so the store never grows past `[2, 4]`. */
  lemma FromTwo(cap: nat, keys: seq<bool>)
    requires keys != []
    ensures Session([2], 2, cap, keys).store == [2, 4]
  {
    var s: seq<nat> := [2];
    assert Cut(s, 4) == 0;
    assert Extend(s, 4) == [2, 4];
    if !keys[0] && cap > 3 {
      EvenCandidatesStall(4, cap, keys[1..]);
    }
  }

  lemma {:induction false} EvenCandidatesStall(i: nat, cap: nat, keys: seq<bool>)
    requires i >= 4 && i % 2 == 0 && cap > 3
    ensures Session([2, 4], i, cap, keys).store == [2, 4]
    decreases |keys|
  {
    if keys != [] {
      var s: seq<nat> := [2, 4];
      assert Cut(s, i + 2) >= 1;
      assert !Accepted(s, i + 2);
      if !keys[0] {
        EvenCandidatesStall(i + 2, cap, keys[1..]);
      }
    }
  }
}
