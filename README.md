# CoPNuF — a model of the prime finder's core

CoPNuF ("Compulsive Prime Numbers Finder") keeps a buffer of prime numbers in memory.
It extends the buffer by trial division until a key is pressed or the buffer is full.
It then appends the numbers found in that session to a text file.
This project models `main` of `main.c` in Dafny:

- `TrialDivision` (trial_division.dfy): the engine of main.c:88-119. The methods
  `Scan`, `Iterate`, `Pass` and `Run` work in place on an `array<nat>` standing for
  `ram_buffer`. They are proved against the specification functions `Accepted`, `Extend`
  and `Session`, and the lemmas beside them state what the engine does to the store.
- `Allocation` (allocation.dfy): the halving `do ... while` of main.c:47 and 56-68 that
  sizes the buffer. `calloc` is a predicate `canAlloc` on the requested size.
- `Persistence` (persistence.dfy): the countdown loop of main.c:135-138. It writes the
  session's values as decimal lines. A reader for that format shows that the text reads
  back as the values written.
- `Copnuf` (copnuf.dfy): `main` as a whole. It chains the allocation, the loaded values,
  the engine, the session counter (main.c:88, 125) and the appended text.

`kbhit()` is an oracle. `keys[k]` is its answer after iteration `k`. A session runs for at
most `|keys|` iterations. The `stopped` flag says whether the source's loop exited before
the answers ran out.

### Where the code does not do what its comments say

The model follows the code. The lemmas state the code's behaviour where it departs from
"every stored value is prime":

- The bound test `p * p >= i` (main.c:102) comes before the divisibility test
  (main.c:105). So a candidate equal to the square of a stored value is accepted whenever
  no smaller stored value divides it. From `[2, 3, 5, 7]` the next candidate, 9, is
  appended (`NineIsAppended`, `SquareAccepted`).
- Candidates start at the last loaded value and advance by 2, so they keep its parity.
  From the store `[2]` the engine appends 4 and then rejects every later (even) candidate
  (`FromTwo`).
- The allocation loop's guard `ram_buffer == NULL || max_primes <= 1000` keeps it looping
  once the size is 1000 or below. So the "Insufficient physical memory" exit
  (main.c:64-68) is dead, and the loop never terminates when the first 23 sizes all fail
  (`PlanCapacity`, `PlanAttempts`, `SpinsForever`).
- If `restore` fills all but one slot, the first accepted candidate fills the last slot.
  `found` then ends equal to `max_primes`, not `max_primes - 1` (`SessionStop`).

## Model

| member | source | states |
|---|---|---|
| TrialDivision.Scan | main.c:99-110 | the inner loop's `not_divisible` equals `Accepted` of the stored prefix `ram_buffer[0..found)` as it stands (its body also proves that no product `ram_buffer[j] * ram_buffer[j]` it computes reaches 2^64) |
| TrialDivision.CutIsFirstSquareAtLeast | main.c:102 | the scan stops at the first stored value whose square is at least the candidate: every earlier square is below it |
| TrialDivision.ScanByCut | main.c:99-110 | the scan from index `j` accepts iff no stored value between `j` and the stopping index divides the candidate |
| TrialDivision.AcceptedByCut | main.c:99-110 | a candidate is accepted iff no stored value before the stopping index divides it |
| TrialDivision.AcceptedIffNoSmallDivisor | main.c:99-117 | for an increasing store: a candidate is rejected iff some stored value whose square is below it divides it |
| TrialDivision.SquareStopsAtItsRoot | main.c:102-105 | for a candidate equal to `s[k] * s[k]`, the scan stops at index `k` itself, so `s[k]` is never tried as a divisor |
| TrialDivision.SquareAccepted | main.c:102-116 | the square of a stored value is accepted iff no smaller-indexed stored value divides it |
| TrialDivision.NineIsAppended | main.c:102-116 | from the store `[2, 3, 5, 7]` the candidate 9, a multiple of 3, is appended |
| TrialDivision.ExtendIncreasing | main.c:113-116 | one iteration on an increasing store whose values lie below the candidate keeps it strictly increasing, keeps every value at most the candidate, and grows it only by the candidate itself |
| TrialDivision.Iterate | main.c:95-117 | the loop body grows `found` by 0 or 1; the new prefix is `Extend` of the old one; no slot at or after the new `found` is written |
| TrialDivision.Run | main.c:88-119 | the engine's final `found`, buffer prefix, number of `kbhit()` polls and exit status are those of `Session`; the rest of the buffer is unchanged; every write is inside the buffer |
| TrialDivision.Pass | main.c:95-119 | one pass of the `do ... while`: the candidate grows by 2, the body runs, and the guard is evaluated with the next poll; the pass either ends the session exactly as `Session` ends it, or leaves the remaining session one poll shorter; the store stays positive and below 2^32 and no slot from the new `found` on is written |
| TrialDivision.SessionProgress | main.c:89-116 | each iteration polls once and adds 2 to the candidate, so the last candidate is `start + 2 * polls` with the start value's parity; `found` grows by at most one per iteration; the loaded prefix never changes |
| TrialDivision.SessionStop | main.c:119 | the loop exits after the first true poll or once `found >= max_primes - 1`, and not before: replaying the polls before the last one, the session has not stopped and left `found < max_primes - 1`; `found` never passes `max_primes`; with no key pressed it ends at `max_primes - 1`; with one free slot and an accepted first candidate it ends at `max_primes` |
| TrialDivision.SessionIncreasing | main.c:95-116 | from an increasing store whose values are at most the start value, the store stays strictly increasing; each appended value lies above the start value, at most the last candidate, with the start value's parity |
| TrialDivision.FirstCandidateExact | main.c:99-116 | the first candidate is in the final store iff the store it was tested against accepts it; that store is the final store's values below it |
| TrialDivision.SessionExact | main.c:99-116 | every tested candidate is in the final store iff the final store's values below it accept it; the scan bound `j < found` includes values appended earlier in the session |
| TrialDivision.FromTwo | main.c:89-116 | starting from the store `[2]`, the engine appends 4 and nothing after it |
| Allocation.TriedClosedForm | main.c:47-58 | the `k`-th size tried is 16000000000 divided by 2^(k+1); the first is 8000000000 |
| Allocation.LargeAttempts | main.c:56-61 | exactly the first 23 sizes tried exceed 1000 |
| Allocation.PlanCapacity | main.c:56-68 | each size passed to `calloc` is the previous one halved; the loop leaves only with a successful allocation of more than 1000 slots, so the "insufficient memory" branch is dead; otherwise the size has dropped to 1000 or below and the loop spins |
| Allocation.SpinsForever | main.c:61 | once the size is 1000 or below, every later size is too, so the guard never fails again |
| Allocation.PlanAttempts | main.c:56-68 | the model records at most 24 calls to `calloc`: an allocation succeeds within the first 23 sizes, or the loop is stuck from the 24th size (953) on; it is stuck exactly when the first 23 sizes (8000000000 down to 1907) all fail |
| Persistence.DecimalShape | main.c:137 | the `PRIu64` rendering is a non-empty run of digits with no leading zero |
| Persistence.DecimalRoundTrip | main.c:137 | the decimal rendering reads back as the value |
| Persistence.LinesRoundTrip | main.c:135-138 | the appended lines read back as exactly the values written, in order |
| Persistence.ResumeRoundTrip | main.c:133-138 | the file is opened for appending: a file holding earlier values reads back as those values followed by the session's |
| Persistence.AppendedText | main.c:135-138 | the countdown loop writes `ram_buffer[found - counter .. found)` in ascending index order, one decimal value and newline each |
| Copnuf.FindPrimes | main.c:47-140 | `main` spins in the allocation loop exactly when the first 23 sizes all fail, and the model records the spin at 953, the first size of 1000 or below (the source keeps halving and calling `calloc` forever); otherwise the buffer has the first size `calloc` accepted, above 1000, and whether the session runs and how it ends are as `Resume` states |
| Copnuf.Resume | main.c:77-140 | the session runs exactly when `restore` loaded at least one value and the source stays inside the buffer (a free slot, or a full buffer whose first candidate is rejected; with `keys` empty the model simulates no iteration and records a full buffer as it stands); it then ends as `Session` says, `counter` is the number of values appended this session, and the text written reads back as exactly those values |

## Left out

- `read_parameters`, `restore`, `start_time`, `prn_time`, `kbhit` and `show_statistics`
  are declared in `include/functions.h`, which is not part of this model. `restore`'s
  result is the parameter `restored`, and `kbhit` is the oracle `keys`.
- `ReadLines` is a reference reader for the written format, not a model of `restore`.
- `calloc` is the predicate `canAlloc`. Which sizes succeed is not modelled, and neither
  are the blocks leaked by the loop.
- File handling (`fopen`, `fprintf`, `fclose`) and all console output (`printf`,
  `fflush`) are left out. Only the text of the appended lines is modelled.
- The elapsed time (`double time`) is left out: it is floating point and wall-clock I/O.
- TrialDivision.Run: does not model the 64-bit wrap-around of `i + 2` (main.c:95) and
  `ram_buffer[j] * ram_buffer[j]` (main.c:102). It requires every loaded value, and the
  last candidate its polls can reach, to be below 2^32, so neither computation wraps.
- TrialDivision.Run: requires every loaded value to be positive. The source divides only
  by the values before the stopping index.
- TrialDivision.Run: runs at most `|keys|` iterations. A source session that would
  outlast the oracle's answers is covered by a longer `keys`.
- Copnuf.Resume: returns `Unsupported` when `restore` loaded nothing, loaded more values
  than the buffer holds, or filled the whole buffer and the first candidate is accepted.
  The source then reads `ram_buffer[found - 1]` with `found - 1` wrapped, or writes
  `ram_buffer[max_primes]` past the buffer's end (main.c:116). Neither is defined, so
  neither is modelled. A full buffer whose first candidate is rejected is modelled: the
  session ends after one poll with nothing appended.
- Allocation.PlanCapacity: returns `Spins` where the source loops forever. The model
  stops at the first size of 1000 or below, and `SpinsForever` shows that the guard
  holds on every later pass.
