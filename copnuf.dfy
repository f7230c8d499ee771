/** `main` of main.c as a whole: size the buffer (main.c:56-68), take the values `restore`
    loaded (main.c:77), run the engine (main.c:88-119), count the session's values
    (main.c:125) and render what is appended to the file (main.c:133-140). `calloc`,
    `restore` and `kbhit` are parameters: `canAlloc`, `restored` and `keys`. */
module Copnuf {
  import TrialDivision
  import Allocation
  import Persistence

  /** How `main` ends. `Spins`: the allocation loop never exits. `Unsupported`: `restore`
      loaded no value (main.c:89 then reads `ram_buffer[found - 1]` with `found - 1`
      wrapped to 2^64 - 1), more values than the buffer holds, or a full buffer whose
      first candidate is accepted (main.c:116 then writes past the buffer's end): cases the
      source leaves undefined. `Finished`: the session ran; `appended` is the text written
      to the file. */
  datatype Ending =
    | Spins(size: nat)
    | Unsupported(maxPrimes: nat)
    | Finished(maxPrimes: nat, found: nat, counter: nat, appended: string, stopped: bool)

  /** The start states whose session the source runs without an access outside the
      buffer: at least one loaded value, and a free slot or a rejected first candidate.
      The source always tests the first candidate; with `keys` empty the model simulates
      no iteration, so it records a full buffer as it stands. */
  predicate Defined(restored: seq<nat>, maxPrimes: nat, keys: seq<bool>)
    requires TrialDivision.Positive(restored)
  {
    1 <= |restored|
    && (|restored| < maxPrimes
        || (|restored| == maxPrimes
            && (keys == [] || !TrialDivision.Accepted(restored, restored[|restored| - 1] + 2))))
  }

  method FindPrimes(canAlloc: nat -> bool, restored: seq<nat>, keys: seq<bool>) returns (e: Ending)
    requires TrialDivision.Positive(restored) && TrialDivision.Fits32(restored)
    requires |restored| > 0 ==> restored[|restored| - 1] + 2 * |keys| < TrialDivision.U32
    ensures e.Spins? <==> forall k :: 0 <= k < 23 ==> !canAlloc(Allocation.Tried(k))
    ensures e.Spins? ==> e.size == Allocation.Tried(23) && e.size <= Allocation.Floor
    ensures !e.Spins? ==>
      exists k :: 0 <= k < 23 && e.maxPrimes == Allocation.Tried(k) && canAlloc(e.maxPrimes)
        && forall j :: 0 <= j < k ==> !canAlloc(Allocation.Tried(j))
    ensures !e.Spins? ==> e.maxPrimes > Allocation.Floor
    ensures !e.Spins? ==> (e.Finished? <==> Defined(restored, e.maxPrimes, keys))
    ensures e.Finished? ==> Completes(restored, e.maxPrimes, keys, e)
  {
    var plan := Allocation.PlanCapacity(canAlloc);
    Allocation.PlanAttempts(canAlloc, plan);
    if plan.Spins? {
      return Spins(plan.size);
    }
    ghost var k := plan.attempts - 1;
    assert k < 23 && plan.size == Allocation.Tried(k);
    e := Resume(restored, plan.size, keys);
  }

  /** The session ended as `Session` says, and the text appended reads back as the values
      the session added. */
  predicate Completes(restored: seq<nat>, maxPrimes: nat, keys: seq<bool>, e: Ending)
    requires TrialDivision.Positive(restored)
    requires e.Finished?
  {
    1 <= |restored|
    && var o := TrialDivision.Session(restored, restored[|restored| - 1], maxPrimes, keys);
    |restored| <= |o.store|
    && e.found == |o.store| && e.stopped == o.stopped
    && e.counter == e.found - |restored|
    && e.appended == Persistence.Lines(o.store[|restored|..])
    && Persistence.ReadLines(e.appended) == o.store[|restored|..]
  }

  /** Everything after the allocation: the values `restore` loaded (main.c:77), the engine
      (main.c:88-119), the session counter (main.c:88, 125) and the appended text
      (main.c:133-140), on a buffer of `maxPrimes` slots. */
  method Resume(restored: seq<nat>, maxPrimes: nat, keys: seq<bool>) returns (e: Ending)
    requires TrialDivision.Positive(restored) && TrialDivision.Fits32(restored)
    requires |restored| > 0 ==> restored[|restored| - 1] + 2 * |keys| < TrialDivision.U32
    ensures !e.Spins? && e.maxPrimes == maxPrimes
    ensures e.Finished? <==> Defined(restored, maxPrimes, keys)
    ensures e.Finished? ==> Completes(restored, maxPrimes, keys, e)
  {
    var found := |restored|;
    if found == 0 || found > maxPrimes {
      return Unsupported(maxPrimes);
    }
    var buf := new nat[maxPrimes]((k: nat) => if k < |restored| then restored[k] else 0);
    assert buf[..found] == restored;
    if found == maxPrimes {
      // no free slot: the first iteration scans the full buffer and then the guard
      // `found < max_primes - 1` of main.c:119 fails, after one poll
      if keys == [] {
        return Finished(maxPrimes, found, 0, "", false);
      }
      var notDivisible := TrialDivision.Scan(buf, found, buf[found - 1] + 2);
      if notDivisible {
        return Unsupported(maxPrimes);
      }
      assert restored[found..] == [];
      return Finished(maxPrimes, found, 0, "", true);
    }
    var counter := found;
    var polls, stopped;
    TrialDivision.SessionProgress(restored, restored[found - 1], maxPrimes, keys);
    found, polls, stopped := TrialDivision.Run(buf, found, keys);
    counter := found - counter;
    var appended := Persistence.AppendedText(buf, found, counter);
    ghost var added := buf[found - counter..found];
    assert added == buf[..found][|restored|..];
    Persistence.LinesRoundTrip(added);
    e := Finished(maxPrimes, found, counter, appended, stopped);
  }
}
