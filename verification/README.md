# OMNY fare cap — a verified model of the capping engine

This project models `apply_capping_policy`, the rolling-window fare-capping
engine of the OMNY fare-cap simulator (`omny.py`). The engine reads taps
`(payee, tap_time)` in time order. It keeps, for each payee, the list of that
payee's *paid* tap times (`paid_trips`). On each tap it:

1. inserts the payee with an empty list if the payee is new;
2. computes `window_start = tap_time - window`;
3. drops stored times earlier than `window_start` (a time equal to
   `window_start` is kept);
4. charges `base_fare` and appends the tap time if fewer than `cap_limit`
   times remain, and charges 0 otherwise;
5. emits one row `[payee, tap_time, fare]`.

Everything lives in module `OmnyFareCap` (`fare_cap.dfy`):

- `Evict` is the eviction filter on line 56.
- `Step` is one loop iteration on the `paid_trips` table, as a pure function of
  the table before the tap.
- `PaidTripsAfter`, `Decisions` and `CappedFares` fold `Step` over the input.
  They serve as the specification of a whole run.
- `ApplyCappingPolicy` is the engine itself: a `for` loop that updates a local
  `paid_trips` map in place and appends to `results`. Its loop invariant ties
  both to the specification.
- The lemmas prove the per-payee state invariants and the cap. A tap is
  charged only when its payee has fewer than `cap_limit` charged taps at or
  after its window start (`RespectsCap`). Any decisions that obey this rule
  give at most `cap_limit` charged rows per payee in any closed window
  `[t - window, t]` (`RuleCapsEveryWindow`). With each payee's taps in time
  order, the engine's decisions obey the rule (`EngineRespectsCap`).

Encodings:

- Times are integers counting the datetime's finest unit, microseconds, so
  the encoding is exact. The engine only subtracts and compares times, so it
  behaves the same in any integer unit.
- The window is the same unit: `timedelta(days=d)` is `d * 86_400_000_000`.
- Fares are whole cents (`int`). For example, `base_fare = 2.90` becomes 290.
- Payees are any type with equality.
- The engine's parameters are `Policy(capLimit, window, baseFare)`. Like the
  source, the engine accepts any values for them. Properties that need a sign
  say so in their `requires`.

Two behaviours of the code are worth stating outright:

- **Boundary.** A paid time exactly one window old is kept (`t >= window_start`,
  omny.py:56) and still counts, so the window is closed at both ends
  (`EvictMembers`, `BoundaryTapStillCounts`).
- **Configuration.** The code validates no parameter. With `cap_limit <= 0`
  every tap is free, and the model does the same.

## Model

| member | source | states |
|---|---|---|
| OmnyFareCap.Evict | omny.py:56 | The filtered list is never longer than the stored list. |
| OmnyFareCap.EvictMembers | omny.py:55-56 | A time survives eviction if and only if it was stored and is `>= window_start`. The comparison is inclusive. |
| OmnyFareCap.EvictSorted | omny.py:56 | Evicting from a sorted list gives a sorted list. |
| OmnyFareCap.EvictTrimsPrefix | omny.py:56 | On a sorted list, eviction removes exactly a prefix, and every removed time is before the window start. |
| OmnyFareCap.EvictTwice | omny.py:55-56 | Evicting at an earlier start and then at a later one equals evicting at the later one. |
| OmnyFareCap.EvictAppend | omny.py:56 | Eviction distributes over concatenation of lists. |
| OmnyFareCap.EvictAllBefore | omny.py:56 | A list whose times are all before the window start is emptied. |
| OmnyFareCap.Step | omny.py:52-62 | The tap is charged if and only if fewer than `cap_limit` times survive eviction. A free tap leaves the payee's entry as the evicted list. A charged tap stores the evicted list plus its own time. Every other entry is unchanged. The list never grows past `cap_limit`. |
| OmnyFareCap.StepKeepsWindow | omny.py:55-60 | With a non-negative window, every time stored for the payee after a tap is at or after that tap's window start. |
| OmnyFareCap.StepChargesEmptyWindow | omny.py:52-60 | With `cap_limit > 0`, a payee's first tap, or a tap with nothing left in its window, is charged. Its list becomes just its own time. |
| OmnyFareCap.StepStoredNotAfter | omny.py:56-60 | A tap adds no stored time later than its own time. |
| OmnyFareCap.StepKeepsSorted | omny.py:56-60 | A tap no earlier than every stored time of its payee keeps that payee's list sorted. |
| OmnyFareCap.StepCountsPaid | omny.py:56-60 | Count the stored times `>= since`, for a `since` at or after the tap's window start. The tap adds one to that count exactly when it belongs to the payee, is charged and is at or after `since`. |
| OmnyFareCap.Fares | omny.py:64 | There is one row per tap, in input order. Row k carries tap k's payee and time, with the base fare if charged and 0 otherwise. |
| OmnyFareCap.PaidTripsBounded | omny.py:58-60 | At every point of a run, no payee's list holds more than `cap_limit` times. |
| OmnyFareCap.StoredNotAfter | omny.py:56-60 | Every stored time of a payee is bounded by any bound that covers that payee's taps so far. |
| OmnyFareCap.PaidTripsSorted | omny.py:55-60 | If each payee's taps come in time order, each payee's stored list stays sorted. |
| OmnyFareCap.StoredCountsPaidTaps | omny.py:55-60 | Take any `since` at or after every window start the payee has seen. The number of stored times `>= since` equals the number of that payee's charged taps at or after `since`. Only paid taps are ever stored, and none is lost early. |
| OmnyFareCap.WindowWithinSince | omny.py:58-64 | The charged rows of a payee in `[t - window, t]` are at most the payee's charged taps at or after any `since <= t - window`. |
| OmnyFareCap.RuleCapsEveryWindow | omny.py:55-64 | Any decisions that charge a tap only when fewer than `cap_limit` of its payee's charged taps lie at or after its window start give at most `cap_limit` charged rows per payee in every closed window `[t - window, t]`. |
| OmnyFareCap.ChargedIffRoomInWindow | omny.py:55-62 | If each payee's taps come in time order, tap i is charged exactly when its payee has fewer than `cap_limit` earlier charged taps at or after its window start. Free taps neither reset nor extend the cap. |
| OmnyFareCap.EngineRespectsCap | omny.py:51-62 | If each payee's taps come in time order, the engine's decisions follow that rule. |
| OmnyFareCap.CapHoldsForEveryWindow | omny.py:51-64 | If each payee's taps come in time order and `cap_limit >= 0`, then for every payee and every instant t, at most `cap_limit` output rows of that payee in `[t - window, t]` carry a fare. |
| OmnyFareCap.WindowReset | omny.py:52-62 | Suppose `cap_limit > 0` and the payee has tapped nothing within the tap's window (for example, on their first tap). Then the tap is charged the base fare. |
| OmnyFareCap.WeekDay0 | omny.py:52-60 | With a cap of 2 over 7 days, a rider's first tap on day 0 is charged and stored. |
| OmnyFareCap.WeekDay1 | omny.py:55-60 | The second tap, on day 1, keeps day 0 in the window, is charged and is stored. |
| OmnyFareCap.WeekDay2 | omny.py:58-62 | The third tap, on day 2, finds two paid times in the window and rides free. |
| OmnyFareCap.WeekScenario | omny.py:51-64 | Taps on days 0, 1, 2 and 10 are charged 290, 290, 0 and 290 cents. |
| OmnyFareCap.BoundaryTapStillCounts | omny.py:55-62 | With a cap of 1, a tap exactly 7 days after a paid tap rides free, because the older tap is kept at the boundary. |
| OmnyFareCap.ApplyCappingPolicy | omny.py:47-66 | The loop returns the specified rows, one per tap in input order, each with its tap's payee and time. Every fare is the base fare or 0. For time-sorted input with `cap_limit >= 0`, no payee has more than `cap_limit` charged rows in any window `[t - window, t]`. |

## Left out

- `generate_payee_ids` and `simulate_taps` (omny.py:17-45) produce random data. Their one promise to the engine, that taps are sorted by time, appears as `SortedByTime` in the `ApplyCappingPolicy` postcondition and as the weaker `PayeeOrdered` in the lemmas.
- `save_to_csv` (omny.py:68-73) is file I/O plus `strftime` and fare formatting. It is not modelled.
- `main` (omny.py:76-110) is console printing, the `DEBUG` switch and orchestration. It is not modelled.
- Floating-point fares (`2.90`, `0.00`) are modelled as integer cents. A fare is 0 exactly when the tap is free, provided the base fare is non-zero.
- `datetime` and `timedelta` values are modelled as unbounded integer microseconds. The `OverflowError` that `datetime` raises near its minimum and maximum values is not modelled.
- StepKeepsWindow: requires a non-negative window. With a negative window the tap's own appended time lies before its window start, so the property fails, as it does in the source.
- CapHoldsForEveryWindow: requires `cap_limit >= 0`. With a negative cap no tap is charged, but "at most `cap_limit`" cannot hold for a count.
- Out-of-order input: the engine runs on any input order. The cap theorems assume each payee's taps are in time order, which the sorted input provides.
