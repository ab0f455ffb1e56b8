/**
 * The rolling-window fare-capping engine of the OMNY fare-cap simulator.
 *
 * A time-ordered stream of taps is processed one tap at a time. For every
 * payee the engine keeps the list of that payee's *paid* tap times
 * (`paid_trips`). On each tap it evicts stored times that fall before the
 * tap's window start, charges the base fare and records the tap if fewer
 * than `cap_limit` paid times remain, and charges nothing otherwise.
 *
 * Times and the cap window are integers counting the datetime's finest unit
 * (microseconds), and fares
 * are whole cents.
 */
module OmnyFareCap {

  /** A tap event: who tapped, and when (microseconds). */
  datatype Tap<P> = Tap(payee: P, time: int)

  /** The engine's parameters: cap_limit, the cap window (microseconds) and base_fare (cents). */
  datatype Policy = Policy(capLimit: int, window: int, baseFare: int)

  /** One output row `[payee, tap_time, fare]`. */
  datatype FareRecord<P> = FareRecord(payee: P, time: int, fare: int)

  /** The paid-trip table after one tap, and whether that tap was charged. */
  datatype Decision<P> = Decision(paidTrips: map<P, seq<int>>, charged: bool)

  predicate Sorted(s: seq<int>)
  {
    forall i, j :: 0 <= i < j < |s| ==> s[i] <= s[j]
  }

  /** The producer's promise: taps come sorted by time. */
  predicate SortedByTime<P>(taps: seq<Tap<P>>)
  {
    forall i, j :: 0 <= i < j < |taps| ==> taps[i].time <= taps[j].time
  }

  /** The weaker per-payee form of that promise, which is all the cap needs. */
  predicate PayeeOrdered<P(==)>(taps: seq<Tap<P>>)
  {
    forall i, j :: 0 <= i < j < |taps| && taps[i].payee == taps[j].payee ==> taps[i].time <= taps[j].time
  }

  /** The most paid times a payee's list can hold: cap_limit, or none when cap_limit is not positive. */
  function MaxPaid(policy: Policy): nat
  {
    if policy.capLimit > 0 then policy.capLimit else 0
  }

  /** `window_start`: the earliest paid time that still counts against this tap. */
  function WindowStart<P>(tap: Tap<P>, policy: Policy): int
  {
    tap.time - policy.window
  }

  /** A payee's stored list; a payee not yet in the table has an empty one. */
  function Stored<P(==)>(paidTrips: map<P, seq<int>>, payee: P): seq<int>
  {
    if payee in paidTrips then paidTrips[payee] else []
  }

  // ---------------------------------------------------------------------
  // Eviction
  // ---------------------------------------------------------------------

  /**
   * The eviction filter: keeps, in order, the stored times at or after
   * `windowStart` (a time equal to `windowStart` is kept). Which times it keeps
   * is stated by EvictMembers, that it keeps their order by EvictSorted.
   */
  function Evict(times: seq<int>, windowStart: int): (kept: seq<int>)
    ensures |kept| <= |times|
  {
    if times == [] then []
    else if windowStart <= times[0] then [times[0]] + Evict(times[1..], windowStart)
    else Evict(times[1..], windowStart)
  }

  /** Eviction keeps exactly the times at or after the window start. */
  lemma {:induction false} EvictMembers(times: seq<int>, windowStart: int)
    ensures forall t :: t in Evict(times, windowStart) <==> t in times && windowStart <= t
  {
    if times != [] {
      EvictMembers(times[1..], windowStart);
      assert times == [times[0]] + times[1..];
    }
  }

  /** A sorted list stays sorted under a new head no larger than its elements. */
  lemma SortedCons(x: int, s: seq<int>)
    requires Sorted(s) && forall t :: t in s ==> x <= t
    ensures Sorted([x] + s)
  {
    forall i, j | 0 <= i < j < |s| + 1 ensures ([x] + s)[i] <= ([x] + s)[j] {
      assert s[j - 1] in s;
    }
  }

  /** Eviction keeps a sorted list sorted. */
  lemma {:induction false} EvictSorted(times: seq<int>, windowStart: int)
    requires Sorted(times)
    ensures Sorted(Evict(times, windowStart))
  {
    if times != [] {
      var rest := Evict(times[1..], windowStart);
      EvictSorted(times[1..], windowStart);
      if windowStart <= times[0] {
        EvictMembers(times[1..], windowStart);
        forall t | t in rest ensures times[0] <= t {
          var j :| 0 <= j < |times[1..]| && times[1..][j] == t;
          assert times[j + 1] == t;
        }
        SortedCons(times[0], rest);
      }
    }
  }

  /** Evicting from a concatenation evicts from each part. */
  lemma {:induction false} EvictAppend(a: seq<int>, b: seq<int>, windowStart: int)
    ensures Evict(a + b, windowStart) == Evict(a, windowStart) + Evict(b, windowStart)
  {
    if a == [] {
      assert a + b == b;
    } else {
      assert (a + b)[1..] == a[1..] + b;
      EvictAppend(a[1..], b, windowStart);
    }
  }

  /** Evicting at an earlier start and then at a later one is evicting at the later one. */
  lemma {:induction false} EvictTwice(times: seq<int>, earlier: int, later: int)
    requires earlier <= later
    ensures Evict(Evict(times, earlier), later) == Evict(times, later)
  {
    if times != [] {
      EvictTwice(times[1..], earlier, later);
      if earlier <= times[0] {
        assert ([times[0]] + Evict(times[1..], earlier))[1..] == Evict(times[1..], earlier);
      }
    }
  }

  /** Eviction empties a list whose times are all before the window start. */
  lemma {:induction false} EvictAllBefore(times: seq<int>, windowStart: int)
    requires forall t :: t in times ==> t < windowStart
    ensures Evict(times, windowStart) == []
  {
    if times != [] {
      assert times[0] in times;
      assert forall t :: t in times[1..] ==> t in times;
      EvictAllBefore(times[1..], windowStart);
    }
  }

  /** On a sorted list, eviction trims a prefix of times that are all before the window start. */
  lemma {:induction false} EvictTrimsPrefix(times: seq<int>, windowStart: int) returns (k: nat)
    requires Sorted(times)
    ensures k <= |times| && Evict(times, windowStart) == times[k..]
    ensures forall i :: 0 <= i < k ==> times[i] < windowStart
  {
    if times == [] {
      k := 0;
    } else if windowStart <= times[0] {
      k := 0;
      var rest := EvictTrimsPrefix(times[1..], windowStart);
      if rest > 0 {
        assert false;
      }
      assert Evict(times[1..], windowStart) == times[1..];
      assert times == [times[0]] + times[1..];
    } else {
      var rest := EvictTrimsPrefix(times[1..], windowStart);
      k := rest + 1;
      assert times[1..][rest..] == times[k..];
    }
  }

  // ---------------------------------------------------------------------
  // One tap
  // ---------------------------------------------------------------------

  /**
   * Processing one tap on the paid-trip table: insert the payee lazily, evict
   * their list at the tap's window start, then charge and append the tap time
   * if fewer than cap_limit paid times remain.
   */
  function Step<P(==)>(paidTrips: map<P, seq<int>>, tap: Tap<P>, policy: Policy): (d: Decision<P>)
    // The first three clauses spell out the body below. They restate it rather than add to it, and
    // are there so that callers reason about a step without unfolding it; the properties a step
    // keeps are the lemmas that follow.
    ensures d.charged <==> |Evict(Stored(paidTrips, tap.payee), WindowStart(tap, policy))| < policy.capLimit
    ensures !d.charged ==> d.paidTrips == paidTrips[tap.payee := Evict(Stored(paidTrips, tap.payee), WindowStart(tap, policy))]
    ensures d.charged ==> d.paidTrips == paidTrips[tap.payee := Evict(Stored(paidTrips, tap.payee), WindowStart(tap, policy))
                                                                 + [tap.time]]
    // the list never grows past cap_limit
    ensures |Stored(paidTrips, tap.payee)| <= MaxPaid(policy) ==> |d.paidTrips[tap.payee]| <= MaxPaid(policy)
  {
    var kept := Evict(Stored(paidTrips, tap.payee), WindowStart(tap, policy));
    if |kept| < policy.capLimit then Decision(paidTrips[tap.payee := kept + [tap.time]], true)
    else Decision(paidTrips[tap.payee := kept], false)
  }

  /** With a non-negative window, every time kept for the payee after a tap lies in that tap's window. */
  lemma StepKeepsWindow<P>(paidTrips: map<P, seq<int>>, tap: Tap<P>, policy: Policy)
    requires 0 <= policy.window
    ensures forall t :: t in Step(paidTrips, tap, policy).paidTrips[tap.payee] ==> WindowStart(tap, policy) <= t
  {
    EvictMembers(Stored(paidTrips, tap.payee), WindowStart(tap, policy));
  }

  /** With a positive cap, a payee's first tap, or a tap with no paid time left in its window, is charged. */
  lemma StepChargesEmptyWindow<P>(paidTrips: map<P, seq<int>>, tap: Tap<P>, policy: Policy)
    requires 0 < policy.capLimit
    requires tap.payee !in paidTrips || Evict(Stored(paidTrips, tap.payee), WindowStart(tap, policy)) == []
    ensures Step(paidTrips, tap, policy).charged
    ensures Step(paidTrips, tap, policy).paidTrips[tap.payee] == [tap.time]
  {
  }

  /** A payee's list after a tap is their list before it, evicted, plus the tap's time when it is theirs and charged. */
  lemma StepStored<P>(paidTrips: map<P, seq<int>>, tap: Tap<P>, policy: Policy, payee: P)
    ensures var d := Step(paidTrips, tap, policy);
            Stored(d.paidTrips, payee)
            == if payee != tap.payee then Stored(paidTrips, payee)
               else Evict(Stored(paidTrips, payee), WindowStart(tap, policy)) + (if d.charged then [tap.time] else [])
  {
  }

  /** A tap adds no stored time later than its own. */
  lemma StepStoredNotAfter<P>(paidTrips: map<P, seq<int>>, tap: Tap<P>, policy: Policy, payee: P, bound: int)
    requires forall t :: t in Stored(paidTrips, payee) ==> t <= bound
    requires tap.payee == payee ==> tap.time <= bound
    ensures forall t :: t in Stored(Step(paidTrips, tap, policy).paidTrips, payee) ==> t <= bound
  {
    StepStored(paidTrips, tap, policy, payee);
    EvictMembers(Stored(paidTrips, payee), WindowStart(tap, policy));
  }

  /** A tap no earlier than every stored time of its payee keeps that payee's list sorted. */
  lemma StepKeepsSorted<P>(paidTrips: map<P, seq<int>>, tap: Tap<P>, policy: Policy, payee: P)
    requires Sorted(Stored(paidTrips, payee))
    requires tap.payee == payee ==> forall t :: t in Stored(paidTrips, payee) ==> t <= tap.time
    ensures Sorted(Stored(Step(paidTrips, tap, policy).paidTrips, payee))
  {
    StepStored(paidTrips, tap, policy, payee);
    if tap.payee == payee {
      var kept := Evict(Stored(paidTrips, payee), WindowStart(tap, policy));
      EvictSorted(Stored(paidTrips, payee), WindowStart(tap, policy));
      EvictMembers(Stored(paidTrips, payee), WindowStart(tap, policy));
      forall i, j | 0 <= i < j < |kept| + 1 ensures (kept + [tap.time])[i] <= (kept + [tap.time])[j] {
        if j == |kept| {
          assert kept[i] in kept;
        }
      }
      assert kept + [] == kept;
    }
  }

  /**
   * Counting stored times at or after `since`: a tap whose window starts at or
   * before `since` adds one exactly when it is the payee's, charged, and at or
   * after `since`.
   */
  lemma StepCountsPaid<P>(paidTrips: map<P, seq<int>>, tap: Tap<P>, policy: Policy, payee: P, since: int)
    requires tap.payee == payee ==> WindowStart(tap, policy) <= since
    ensures var d := Step(paidTrips, tap, policy);
            |Evict(Stored(d.paidTrips, payee), since)|
            == |Evict(Stored(paidTrips, payee), since)|
               + (if tap.payee == payee && d.charged && since <= tap.time then 1 else 0)
  {
    StepStored(paidTrips, tap, policy, payee);
    if tap.payee == payee {
      var kept := Evict(Stored(paidTrips, payee), WindowStart(tap, policy));
      EvictTwice(Stored(paidTrips, payee), WindowStart(tap, policy), since);
      EvictAppend(kept, [tap.time], since);
      assert [tap.time][1..] == [];
      assert kept + [] == kept;
    }
  }

  // ---------------------------------------------------------------------
  // A whole run, as a specification
  // ---------------------------------------------------------------------

  /** The paid-trip table after the first `n` taps. */
  function PaidTripsAfter<P(==)>(taps: seq<Tap<P>>, policy: Policy, n: nat): map<P, seq<int>>
    requires n <= |taps|
  {
    if n == 0 then map[] else Step(PaidTripsAfter(taps, policy, n - 1), taps[n - 1], policy).paidTrips
  }

  /** Whether tap `i` is charged the base fare. */
  predicate Charged<P(==)>(taps: seq<Tap<P>>, policy: Policy, i: nat)
    requires i < |taps|
  {
    Step(PaidTripsAfter(taps, policy, i), taps[i], policy).charged
  }

  /** The decision taken for every tap of the input, in input order. */
  function Decisions<P(==)>(taps: seq<Tap<P>>, policy: Policy): seq<bool>
  {
    seq(|taps|, i requires 0 <= i < |taps| => Charged(taps, policy, i))
  }

  /**
   * The rows emitted for the first `n` taps under the decisions `charged`:
   * one row per tap, in input order, with the tap's payee and time and the
   * base fare when the tap is charged, zero otherwise.
   */
  function Fares<P>(taps: seq<Tap<P>>, charged: seq<bool>, baseFare: int, n: nat): (rows: seq<FareRecord<P>>)
    requires n <= |taps| && n <= |charged|
    ensures |rows| == n
    ensures forall k :: 0 <= k < n ==>
              rows[k] == FareRecord(taps[k].payee, taps[k].time, if charged[k] then baseFare else 0)
  {
    if n == 0 then []
    else Fares(taps, charged, baseFare, n - 1)
         + [FareRecord(taps[n - 1].payee, taps[n - 1].time, if charged[n - 1] then baseFare else 0)]
  }

  /** The engine's output for the whole input. */
  function CappedFares<P(==)>(taps: seq<Tap<P>>, policy: Policy): seq<FareRecord<P>>
  {
    Fares(taps, Decisions(taps, policy), policy.baseFare, |taps|)
  }

  /** Number of charged taps of `payee` among the first `n` whose time is at least `since`. */
  function PaidSince<P(==)>(taps: seq<Tap<P>>, charged: seq<bool>, n: nat, payee: P, since: int): nat
    requires n <= |taps| && n <= |charged|
  {
    if n == 0 then 0
    else PaidSince(taps, charged, n - 1, payee, since)
         + (if taps[n - 1].payee == payee && charged[n - 1] && since <= taps[n - 1].time then 1 else 0)
  }

  /**
   * Number of rows that belong to `payee`, carry a non-zero fare and lie in
   * the closed window `[t - window, t]`.
   */
  function ChargedInWindow<P(==)>(rows: seq<FareRecord<P>>, payee: P, t: int, window: int): nat
  {
    if rows == [] then 0
    else
      var last := rows[|rows| - 1];
      ChargedInWindow(rows[..|rows| - 1], payee, t, window)
      + (if last.payee == payee && last.fare != 0 && t - window <= last.time <= t then 1 else 0)
  }

  // ---------------------------------------------------------------------
  // Properties of a run
  // ---------------------------------------------------------------------

  /** No payee's list ever holds more than cap_limit times. */
  lemma {:induction false} PaidTripsBounded<P>(taps: seq<Tap<P>>, policy: Policy, n: nat, payee: P)
    requires n <= |taps|
    ensures |Stored(PaidTripsAfter(taps, policy, n), payee)| <= MaxPaid(policy)
  {
    if n > 0 {
      PaidTripsBounded(taps, policy, n - 1, payee);
      DecisionAt(taps, policy, n - 1);
      StepStored(PaidTripsAfter(taps, policy, n - 1), taps[n - 1], policy, payee);
    }
  }

  /** Every stored time of a payee is the time of one of that payee's taps, so none is later than all of them. */
  lemma {:induction false} StoredNotAfter<P>(taps: seq<Tap<P>>, policy: Policy, n: nat, payee: P, bound: int)
    requires n <= |taps|
    requires forall k :: 0 <= k < n && taps[k].payee == payee ==> taps[k].time <= bound
    ensures forall t :: t in Stored(PaidTripsAfter(taps, policy, n), payee) ==> t <= bound
  {
    if n > 0 {
      StoredNotAfter(taps, policy, n - 1, payee, bound);
      DecisionAt(taps, policy, n - 1);
      StepStoredNotAfter(PaidTripsAfter(taps, policy, n - 1), taps[n - 1], policy, payee, bound);
    }
  }

  /** With each payee's taps in time order, each stored list stays sorted. */
  lemma {:induction false} PaidTripsSorted<P>(taps: seq<Tap<P>>, policy: Policy, n: nat, payee: P)
    requires n <= |taps| && PayeeOrdered(taps)
    ensures Sorted(Stored(PaidTripsAfter(taps, policy, n), payee))
  {
    if n > 0 {
      PaidTripsSorted(taps, policy, n - 1, payee);
      var tap := taps[n - 1];
      if tap.payee == payee {
        StoredNotAfter(taps, policy, n - 1, payee, tap.time);
      }
      DecisionAt(taps, policy, n - 1);
      StepKeepsSorted(PaidTripsAfter(taps, policy, n - 1), tap, policy, payee);
    }
  }

  /**
   * The stored list counts the paid taps: for any `since` at or after every
   * window start the payee has seen, the stored times at or after `since` are
   * exactly as many as the payee's charged taps at or after `since`.
   */
  lemma {:induction false} StoredCountsPaidTaps<P>(taps: seq<Tap<P>>, policy: Policy, n: nat, payee: P, since: int)
    requires n <= |taps|
    requires forall k :: 0 <= k < n && taps[k].payee == payee ==> WindowStart(taps[k], policy) <= since
    ensures |Evict(Stored(PaidTripsAfter(taps, policy, n), payee), since)|
            == PaidSince(taps, Decisions(taps, policy), n, payee, since)
  {
    if n > 0 {
      StoredCountsPaidTaps(taps, policy, n - 1, payee, since);
      DecisionAt(taps, policy, n - 1);
      StepCountsPaid(PaidTripsAfter(taps, policy, n - 1), taps[n - 1], policy, payee, since);
    }
  }

  /** Charged rows of a window all lie at or after any `since` not later than the window's start. */
  lemma {:induction false} WindowWithinSince<P>(taps: seq<Tap<P>>, charged: seq<bool>, baseFare: int, n: nat,
                                               payee: P, t: int, window: int, since: int)
    requires n <= |taps| && n <= |charged|
    requires since <= t - window
    ensures ChargedInWindow(Fares(taps, charged, baseFare, n), payee, t, window) <= PaidSince(taps, charged, n, payee, since)
  {
    if n > 0 {
      WindowWithinSince(taps, charged, baseFare, n - 1, payee, t, window, since);
      assert Fares(taps, charged, baseFare, n)[..n - 1] == Fares(taps, charged, baseFare, n - 1);
    }
  }

  /**
   * The rule the engine applies, stated over a whole sequence of decisions:
   * a tap is charged only if its payee has fewer than cap_limit charged taps
   * at or after its window start.
   */
  predicate RespectsCap<P(==)>(taps: seq<Tap<P>>, charged: seq<bool>, policy: Policy)
    requires |charged| == |taps|
  {
    forall i :: 0 <= i < |taps| && charged[i] ==>
      PaidSince(taps, charged, i, taps[i].payee, WindowStart(taps[i], policy)) < policy.capLimit
  }

  /**
   * Any decisions that follow the rule cap every window: no payee has more
   * than cap_limit charged rows among the first `n` in any closed window
   * `[t - window, t]`.
   */
  lemma {:induction false} RuleCapsEveryWindow<P>(taps: seq<Tap<P>>, charged: seq<bool>, policy: Policy,
                                                 n: nat, payee: P, t: int)
    requires |charged| == |taps| && n <= |taps|
    requires RespectsCap(taps, charged, policy) && 0 <= policy.capLimit
    ensures ChargedInWindow(Fares(taps, charged, policy.baseFare, n), payee, t, policy.window) <= policy.capLimit
  {
    if n > 0 {
      RuleCapsEveryWindow(taps, charged, policy, n - 1, payee, t);
      assert Fares(taps, charged, policy.baseFare, n)[..n - 1] == Fares(taps, charged, policy.baseFare, n - 1);
      var tap := taps[n - 1];
      if tap.payee == payee && charged[n - 1] && t - policy.window <= tap.time <= t {
        WindowWithinSince(taps, charged, policy.baseFare, n - 1, payee, t, policy.window, WindowStart(tap, policy));
      }
    }
  }

  /** Tap `i`'s decision, and the table after it, are what one Step makes of the table after the first `i` taps. */
  lemma DecisionAt<P>(taps: seq<Tap<P>>, policy: Policy, i: nat)
    requires i < |taps|
    ensures |Decisions(taps, policy)| == |taps|
    ensures Decisions(taps, policy)[i] == Step(PaidTripsAfter(taps, policy, i), taps[i], policy).charged
    ensures PaidTripsAfter(taps, policy, i + 1) == Step(PaidTripsAfter(taps, policy, i), taps[i], policy).paidTrips
  {
  }

  /**
   * Free trips do not extend the cap: with each payee's taps in time order,
   * tap `i` is charged exactly when its payee has fewer than cap_limit earlier
   * charged taps in its window.
   */
  lemma ChargedIffRoomInWindow<P>(taps: seq<Tap<P>>, policy: Policy, i: nat)
    requires i < |taps| && PayeeOrdered(taps)
    ensures Charged(taps, policy, i)
            <==> PaidSince(taps, Decisions(taps, policy), i, taps[i].payee, WindowStart(taps[i], policy)) < policy.capLimit
  {
    StoredCountsPaidTaps(taps, policy, i, taps[i].payee, WindowStart(taps[i], policy));
  }

  /** With each payee's taps in time order, the engine's decisions follow the rule. */
  lemma EngineRespectsCap<P>(taps: seq<Tap<P>>, policy: Policy)
    requires PayeeOrdered(taps)
    ensures |Decisions(taps, policy)| == |taps| && RespectsCap(taps, Decisions(taps, policy), policy)
  {
    forall i | 0 <= i < |taps|
      ensures Decisions(taps, policy)[i] ==>
                PaidSince(taps, Decisions(taps, policy), i, taps[i].payee, WindowStart(taps[i], policy)) < policy.capLimit
    {
      ChargedIffRoomInWindow(taps, policy, i);
    }
  }

  /**
   * The cap over a whole run: with each payee's taps in time order, for every
   * payee and every instant t, at most cap_limit output rows of that payee in
   * `[t - window, t]` carry a fare.
   */
  lemma CapHoldsForEveryWindow<P>(taps: seq<Tap<P>>, policy: Policy)
    requires PayeeOrdered(taps) && 0 <= policy.capLimit
    ensures forall payee, t :: ChargedInWindow(CappedFares(taps, policy), payee, t, policy.window) <= policy.capLimit
  {
    EngineRespectsCap(taps, policy);
    forall payee, t ensures ChargedInWindow(CappedFares(taps, policy), payee, t, policy.window) <= policy.capLimit {
      RuleCapsEveryWindow(taps, Decisions(taps, policy), policy, |taps|, payee, t);
    }
  }

  /**
   * Window reset: with a positive cap, a tap whose payee has tapped nothing
   * within the window (a first tap in particular) is charged the base fare.
   */
  lemma WindowReset<P>(taps: seq<Tap<P>>, policy: Policy, i: nat)
    requires i < |taps| && 0 < policy.capLimit
    requires forall k :: 0 <= k < i && taps[k].payee == taps[i].payee ==> taps[k].time < WindowStart(taps[i], policy)
    ensures Charged(taps, policy, i)
    ensures CappedFares(taps, policy)[i].fare == policy.baseFare
  {
    DecisionAt(taps, policy, i);
    var since := WindowStart(taps[i], policy);
    var stored := Stored(PaidTripsAfter(taps, policy, i), taps[i].payee);
    StoredNotAfter(taps, policy, i, taps[i].payee, since - 1);
    EvictAllBefore(stored, since);
  }

  // ---------------------------------------------------------------------
  // Worked scenarios
  // ---------------------------------------------------------------------

  /** One day in microseconds. */
  const Day := 86_400_000_000

  /** Rider R1 taps on days 0, 1, 2 and 10. */
  const WeekTaps := [Tap("R1", 0), Tap("R1", Day), Tap("R1", 2 * Day), Tap("R1", 10 * Day)]

  /** Cap 2 over 7 days at 290 cents. */
  const WeekPolicy := Policy(2, 7 * Day, 290)

  /** Day 0: nothing is stored yet, so the tap is charged and stored. */
  lemma WeekDay0()
    ensures PaidTripsAfter(WeekTaps, WeekPolicy, 1) == map["R1" := [0]] && Charged(WeekTaps, WeekPolicy, 0)
  {
    var t0 := WeekTaps[0];
    assert Evict([], WindowStart(t0, WeekPolicy)) == [];
    assert Stored(map[], t0.payee) == [] && [] + [t0.time] == [0];
    assert Step(map[], t0, WeekPolicy) == Decision(map["R1" := [0]], true);
  }

  /** Day 1: day 0 is kept, one slot is left, so the tap is charged and stored. */
  lemma WeekDay1()
    ensures PaidTripsAfter(WeekTaps, WeekPolicy, 2) == map["R1" := [0, Day]] && Charged(WeekTaps, WeekPolicy, 1)
  {
    WeekDay0();
    var t1 := WeekTaps[1];
    var m1 := map["R1" := [0]];
    assert [0][1..] == [];
    assert Evict([0], WindowStart(t1, WeekPolicy)) == [0];
    assert Stored(m1, t1.payee) == [0] && [0] + [t1.time] == [0, Day];
    assert Step(m1, t1, WeekPolicy) == Decision(map["R1" := [0, Day]], true);
  }

  /** Day 2: days 0 and 1 are both kept, the cap is reached, so the tap is free. */
  lemma WeekDay2()
    ensures !Charged(WeekTaps, WeekPolicy, 2)
  {
    WeekDay1();
    var t2 := WeekTaps[2];
    var m2 := map["R1" := [0, Day]];
    assert [0, Day][1..] == [Day] && [Day][1..] == [];
    assert Evict([0, Day], WindowStart(t2, WeekPolicy)) == [0, Day];
    assert Step(m2, t2, WeekPolicy) == Decision(m2, false);
  }

  /** Cap 2 over 7 days: taps on days 0, 1, 2 and 10 pay, pay, ride free, pay. */
  lemma WeekScenario()
    ensures var rows := CappedFares(WeekTaps, WeekPolicy);
            |rows| == 4 && rows[0].fare == 290 && rows[1].fare == 290 && rows[2].fare == 0 && rows[3].fare == 290
  {
    WeekDay0();
    WeekDay1();
    WeekDay2();
    // day 10: every earlier tap is more than 7 days back, so the window is empty: charged
    WindowReset(WeekTaps, WeekPolicy, 3);
  }

  /** A paid tap exactly one window old is still inside the window and still counts. */
  lemma BoundaryTapStillCounts()
    ensures var taps := [Tap("R1", 0), Tap("R1", 7 * Day)];
            var rows := CappedFares(taps, Policy(1, 7 * Day, 290));
            |rows| == 2 && rows[0].fare == 290 && rows[1].fare == 0
  {
    var t0, t1 := Tap("R1", 0), Tap("R1", 7 * Day);
    var taps := [t0, t1];
    var policy := Policy(1, 7 * Day, 290);
    assert Evict([], WindowStart(t0, policy)) == [];
    var m1 := map["R1" := [0]];
    assert Stored(map[], t0.payee) == [] && [] + [t0.time] == [0];
    assert Step(map[], t0, policy) == Decision(m1, true);
    assert PaidTripsAfter(taps, policy, 1) == m1;
    assert [0][1..] == [];
    assert WindowStart(t1, policy) == 0;
    assert Evict([0], 0) == [0];
    assert !Step(m1, t1, policy).charged;
  }

  // ---------------------------------------------------------------------
  // The engine
  // ---------------------------------------------------------------------

  /**
   * `apply_capping_policy`: one pass over the taps that keeps the paid-trip
   * table, evicting, deciding and appending per tap, and emits one row per tap.
   */
  method ApplyCappingPolicy<P(==)>(taps: seq<Tap<P>>, policy: Policy) returns (results: seq<FareRecord<P>>)
    ensures results == CappedFares(taps, policy)
    ensures |results| == |taps|
    ensures forall i :: 0 <= i < |taps| ==> results[i].payee == taps[i].payee && results[i].time == taps[i].time
    ensures forall i :: 0 <= i < |taps| ==> results[i].fare == policy.baseFare || results[i].fare == 0
    ensures SortedByTime(taps) && 0 <= policy.capLimit ==>
              forall payee, t :: ChargedInWindow(results, payee, t, policy.window) <= policy.capLimit
  {
    ghost var charged := Decisions(taps, policy);
    var paidTrips: map<P, seq<int>> := map[];
    results := [];
    for i := 0 to |taps|
      invariant paidTrips == PaidTripsAfter(taps, policy, i)
      invariant results == Fares(taps, charged, policy.baseFare, i)
    {
      ghost var before := paidTrips;
      var payee, tapTime := taps[i].payee, taps[i].time;
      if payee !in paidTrips {
        paidTrips := paidTrips[payee := []];
      }
      assert paidTrips[payee] == Stored(before, payee);
      var windowStart := tapTime - policy.window;
      paidTrips := paidTrips[payee := Evict(paidTrips[payee], windowStart)];
      ghost var kept := Evict(Stored(before, payee), windowStart);
      assert paidTrips == before[payee := kept];
      var fare;
      if |paidTrips[payee]| < policy.capLimit {
        fare := policy.baseFare;
        paidTrips := paidTrips[payee := paidTrips[payee] + [tapTime]];
      } else {
        fare := 0;
      }
      ghost var d := Step(before, taps[i], policy);
      assert paidTrips == d.paidTrips && fare == (if d.charged then policy.baseFare else 0) by {
        assert WindowStart(taps[i], policy) == windowStart;
      }
      DecisionAt(taps, policy, i);
      results := results + [FareRecord(payee, tapTime, fare)];
    }
    if SortedByTime(taps) && 0 <= policy.capLimit {
      CapHoldsForEveryWindow(taps, policy);
    }
  }
}
