/**
 * The Sheets quota limiter. Tokens are counted in 60000ths, so that one millisecond accrues
 * exactly `refillPerMinute` units and no rounding enters.
 */
module TokenBucket {
  import opened Numbers
  import opened Options

  const UNITS: int := 60_000

  datatype State = State(capacity: nat, rate: nat, units: int, last: int)

  predicate WithinCapacity(s: State) {
    0 <= s.units <= s.capacity * UNITS
  }

  function Fresh(capacity: nat, rate: nat, now: int): State {
    State(capacity, rate, capacity * UNITS, now)
  }

  /** What a clock reading does: accrue, cap, and never move the refill time back. */
  function Refilled(s: State, now: int): State {
    s.(units := Min(s.capacity * UNITS, s.units + Max(0, now - s.last) * s.rate), last := Max(s.last, now))
  }

  predicate CanTake(s: State, count: nat, now: int) {
    Refilled(s, now).units >= count * UNITS
  }

  function Taken(s: State, count: nat, now: int): State {
    var r := Refilled(s, now);
    if CanTake(s, count, now) then r.(units := r.units - count * UNITS) else r
  }

  class TokenBucket {
    const capacity: nat
    const refillPerMinute: nat
    var units: int
    var lastRefillMs: int

    ghost function View(): State
      reads this
    {
      State(capacity, refillPerMinute, units, lastRefillMs)
    }

    ghost predicate Valid()
      reads this
    {
      WithinCapacity(View())
    }

    constructor (capacity: nat, refillPerMinute: nat, now: int)
      ensures Valid() && View() == Fresh(capacity, refillPerMinute, now)
    {
      this.capacity := capacity;
      this.refillPerMinute := refillPerMinute;
      units := capacity * UNITS;
      lastRefillMs := now;
    }

    method Refill(nowMs: int)
      requires Valid()
      modifies this
      ensures Valid() && View() == Refilled(old(View()), nowMs)
      ensures lastRefillMs == Max(old(lastRefillMs), nowMs)
      ensures units == Min(capacity * 60_000, old(units) + Max(0, nowMs - old(lastRefillMs)) * refillPerMinute)
    {
      var elapsedMs := Max(0, nowMs - lastRefillMs);
      if elapsedMs == 0 {
        return;
      }
      var accrued := elapsedMs * refillPerMinute;
      units := Min(capacity * UNITS, units + accrued);
      lastRefillMs := nowMs;
    }

    method Available(nowMs: int) returns (tokens: int)
      requires Valid()
      modifies this
      ensures Valid() && View() == Refilled(old(View()), nowMs) && tokens == View().units
    {
      Refill(nowMs);
      tokens := units;
    }

    method TryTake(count: nat, nowMs: int) returns (ok: bool)
      requires Valid()
      modifies this
      ensures Valid() && View() == Taken(old(View()), count, nowMs)
      ensures ok <==> CanTake(old(View()), count, nowMs)
    {
      Refill(nowMs);
      if units < count * UNITS {
        return false;
      }
      units := units - count * UNITS;
      ok := true;
    }

    /** `None` is the infinite wait a zero rate produces. */
    method WaitMs(count: nat, nowMs: int) returns (ms: Option<nat>)
      requires Valid()
      modifies this
      ensures Valid() && View() == Refilled(old(View()), nowMs)
      ensures ms == Wait(old(View()), count, nowMs)
    {
      Refill(nowMs);
      if units >= count * UNITS {
        return Some(0);
      }
      if refillPerMinute == 0 {
        return None;
      }
      var deficit := count * UNITS - units;
      ms := Some((deficit + refillPerMinute - 1) / refillPerMinute);
    }
  }

  function Wait(s: State, count: nat, now: int): Option<nat> {
    var deficit := count * UNITS - Refilled(s, now).units;
    if deficit <= 0 then Some(0)
    else if s.rate == 0 then None
    else Some((deficit + s.rate - 1) / s.rate)
  }

  // ---- Any sequence of calls under any clock ----------------------------------

  datatype Call = Poll(now: int) | Take(count: nat, now: int) | Ask(count: nat, now: int)

  function After(s: State, c: Call): State {
    match c
    case Take(count, now) => Taken(s, count, now)
    case _ => Refilled(s, c.now)
  }

  function Run(s: State, calls: seq<Call>): State
    decreases |calls|
  {
    if calls == [] then s else Run(After(s, calls[0]), calls[1..])
  }

  function GrantedBy(s: State, c: Call): nat {
    match c
    case Take(count, now) => if CanTake(s, count, now) then count else 0
    case _ => 0
  }

  /** Tokens granted over a run. */
  function Granted(s: State, calls: seq<Call>): nat
    decreases |calls|
  {
    if calls == [] then 0 else GrantedBy(s, calls[0]) + Granted(After(s, calls[0]), calls[1..])
  }

  /** What a call answers: tokens there are, whether it took, how long to wait. */
  datatype Outcome = Tokens(units: int) | Took(ok: bool) | WaitFor(ms: Option<nat>)

  function OutcomeOf(s: State, c: Call): Outcome {
    match c
    case Poll(now) => Tokens(Refilled(s, now).units)
    case Take(count, now) => Took(CanTake(s, count, now))
    case Ask(count, now) => WaitFor(Wait(s, count, now))
  }

  function Outcomes(s: State, calls: seq<Call>): seq<Outcome>
    decreases |calls|
  {
    if calls == [] then [] else [OutcomeOf(s, calls[0])] + Outcomes(After(s, calls[0]), calls[1..])
  }

  lemma {:induction false} RunStaysWithinCapacity(s: State, calls: seq<Call>)
    requires WithinCapacity(s)
    ensures WithinCapacity(Run(s, calls))
    ensures Run(s, calls).last >= s.last && Run(s, calls).rate == s.rate && Run(s, calls).capacity == s.capacity
    decreases |calls|
  {
    if calls != [] {
      RefillStaysWithin(s, calls[0].now);
      RunStaysWithinCapacity(After(s, calls[0]), calls[1..]);
    }
  }

  lemma RefillStaysWithin(s: State, now: int)
    requires WithinCapacity(s)
    ensures WithinCapacity(Refilled(s, now))
    ensures Refilled(s, now).units <= s.units + s.rate * (Refilled(s, now).last - s.last)
  {
    var gain := Max(0, now - s.last);
    assert gain * s.rate >= 0;
  }

  /**
   * Conservation: what was granted plus what is left never exceeds what was there plus what
   * accrued, time measured on the running maximum of the clock.
   */
  lemma {:induction false} GrantedPlusLeft(s: State, calls: seq<Call>)
    requires WithinCapacity(s)
    ensures Granted(s, calls) * UNITS + Run(s, calls).units <= s.units + s.rate * (Run(s, calls).last - s.last)
    decreases |calls|
  {
    if calls != [] {
      RefillStaysWithin(s, calls[0].now);
      var s' := After(s, calls[0]);
      GrantedPlusLeft(s', calls[1..]);
      var end := Run(s, calls).last;
      assert s.rate * (s'.last - s.last) + s.rate * (end - s'.last) == s.rate * (end - s.last);
    }
  }

  /** Between any two moments of any run the takes are bounded by capacity plus rate times elapsed. */
  lemma RateIsBounded(capacity: nat, rate: nat, start: int, before: seq<Call>, window: seq<Call>)
    ensures var s := Run(Fresh(capacity, rate, start), before);
            Granted(s, window) * 60_000 <= capacity * 60_000 + rate * (Run(s, window).last - s.last)
  {
    RunStaysWithinCapacity(Fresh(capacity, rate, start), before);
    var s := Run(Fresh(capacity, rate, start), before);
    GrantedPlusLeft(s, window);
    RunStaysWithinCapacity(s, window);
  }

  /** An extra poll leaves the next call's view unchanged exactly when its reading is not ahead of it. */
  lemma PollIsInvisible(s: State, poll: int, now: int)
    requires WithinCapacity(s)
    ensures Refilled(Refilled(s, poll), now) == Refilled(s, now) <==> poll <= Max(s.last, now)
  {
    var a, b := Max(0, poll - s.last), Max(0, now - Max(s.last, poll));
    assert a * s.rate >= 0 && b * s.rate >= 0;
    if poll <= Max(s.last, now) {
      assert a + b == Max(0, now - s.last);
      assert (a + b) * s.rate == a * s.rate + b * s.rate;
    }
  }

  // ---- When a caller can tell ---------------------------------------------------------

  /** The refill time alone makes no difference to a bucket that cannot gain. */
  lemma {:induction false} CannotGain(a: State, b: State, calls: seq<Call>)
    requires WithinCapacity(a) && b == a.(last := b.last) && (a.rate == 0 || a.capacity == 0)
    ensures Outcomes(a, calls) == Outcomes(b, calls)
    decreases |calls|
  {
    if calls != [] {
      SameUnitsWhenRefilled(a, b, calls[0].now);
      RefillStaysWithin(a, calls[0].now);
      CannotGain(After(a, calls[0]), After(b, calls[0]), calls[1..]);
    }
  }

  lemma SameUnitsWhenRefilled(a: State, b: State, now: int)
    requires WithinCapacity(a) && b == a.(last := b.last) && (a.rate == 0 || a.capacity == 0)
    ensures Refilled(a, now).units == Refilled(b, now).units == a.units
  {
    assert Max(0, now - a.last) * a.rate >= 0 && Max(0, now - b.last) * a.rate >= 0;
  }

  lemma LongerGainsMore(a: nat, b: nat, rate: nat)
    requires a < b && rate > 0
    ensures 0 <= a * rate < b * rate
  {
    assert b * rate == a * rate + (b - a) * rate;
    assert (b - a) * rate > 0;
  }

  /** A refill in terms of what it adds; a reading behind the last refill adds nothing. */
  lemma RefilledBy(s: State, now: int, gain: int)
    requires gain == (if now > s.last then (now - s.last) * s.rate else 0)
    ensures Refilled(s, now) == s.(units := Min(s.capacity * UNITS, s.units + gain), last := Max(s.last, now))
  {
  }

  /** A bucket with room has more for a later reading. */
  lemma GainsStrictly(s: State, now: int, later: int)
    requires WithinCapacity(s) && s.rate > 0 && later > Max(s.last, now)
    requires Refilled(s, now).units < s.capacity * UNITS
    ensures Refilled(Refilled(s, later), now).units > Refilled(s, now).units
  {
    var full, a, b := s.capacity * UNITS, Max(0, now - s.last), later - s.last;
    LongerGainsMore(a, b, s.rate);
    var less, more := a * s.rate, b * s.rate;
    RefilledBy(s, now, less);
    RefilledBy(s, later, more);
    RefilledBy(Refilled(s, later), now, 0);
    assert Refilled(s, later).units <= full;
  }

  /** A full bucket that gives a token out at `now` has it back at the later reading, unless that was used up. */
  lemma RefillsAfterTake(s: State, now: int, later: int)
    requires WithinCapacity(s) && s.rate > 0 && s.capacity > 0 && later > Max(s.last, now)
    requires Refilled(s, now).units == s.capacity * UNITS
    ensures Refilled(Taken(Refilled(s, later), 1, now), later).units < Refilled(Taken(s, 1, now), later).units
  {
    var full, a, b := s.capacity * UNITS, Max(0, now - s.last), later - s.last;
    assert full >= UNITS;
    LongerGainsMore(a, b, s.rate);
    RefilledBy(s, now, a * s.rate);
    RefilledBy(s, later, b * s.rate);
    var polled, t := Refilled(s, later), Taken(s, 1, now);
    assert polled == s.(units := full, last := later);
    RefilledBy(polled, now, 0);
    assert Taken(polled, 1, now) == s.(units := full - UNITS, last := later);
    RefilledBy(Taken(polled, 1, now), later, 0);
    assert t == s.(units := full - UNITS, last := Max(s.last, now));
    LongerGainsMore(0, later - t.last, s.rate);
    RefilledBy(t, later, (later - t.last) * s.rate);
  }

  /** Some continuation, its first reading `now`, whose answers an extra poll changes. */
  lemma PollIsNoticed(s: State, poll: int, now: int) returns (calls: seq<Call>)
    requires WithinCapacity(s) && s.rate > 0 && s.capacity > 0 && poll > Max(s.last, now)
    ensures calls != [] && calls[0].now == now && Outcomes(Refilled(s, poll), calls) != Outcomes(s, calls)
  {
    RefillStaysWithin(s, now);
    if Refilled(s, now).units < s.capacity * UNITS {
      GainsStrictly(s, now, poll);
      calls := [Poll(now)];
      assert Outcomes(Refilled(s, poll), calls)[0] != Outcomes(s, calls)[0];
    } else {
      RefillsAfterTake(s, now, poll);
      calls := [Take(1, now), Poll(poll)];
      SecondOutcome(Refilled(s, poll), calls[0], calls[1]);
      SecondOutcome(s, calls[0], calls[1]);
    }
  }

  lemma SecondOutcome(s: State, a: Call, b: Call)
    ensures |Outcomes(s, [a, b])| == 2 && Outcomes(s, [a, b])[1] == OutcomeOf(After(s, a), b)
  {
    assert [a, b][1..] == [b];
    assert Outcomes(After(s, a), [b]) == [OutcomeOf(After(s, a), b)] + Outcomes(After(After(s, a), b), []);
  }

  /**
   * No caller can tell that there was an extra poll exactly when its reading is not ahead of the next
   * one, or the bucket cannot gain. A full bucket is no exception: it shows after the next take.
   */
  lemma PollIsUnnoticedIff(s: State, poll: int, now: int)
    requires WithinCapacity(s)
    ensures (forall calls: seq<Call> | calls != [] && calls[0].now == now ::
               Outcomes(Refilled(s, poll), calls) == Outcomes(s, calls))
            <==> poll <= Max(s.last, now) || s.rate == 0 || s.capacity == 0
  {
    if s.rate == 0 || s.capacity == 0 {
      forall calls: seq<Call>
        ensures Outcomes(Refilled(s, poll), calls) == Outcomes(s, calls)
      {
        SameUnitsWhenRefilled(s, s, poll);
        CannotGain(s, Refilled(s, poll), calls);
      }
    } else if poll <= Max(s.last, now) {
      PollIsInvisible(s, poll, now);
      forall calls: seq<Call> | calls != [] && calls[0].now == now
        ensures Outcomes(Refilled(s, poll), calls) == Outcomes(s, calls)
      {
        assert After(Refilled(s, poll), calls[0]) == After(s, calls[0]);
      }
    } else {
      var calls := PollIsNoticed(s, poll, now);
    }
  }

  /** From a new bucket of one token: a poll ahead of the clock lets a second take through at once. */
  lemma PollAheadIsVisible(rate: nat)
    requires rate > 0
    ensures Granted(Fresh(1, rate, 0), [Take(1, 0), Take(1, 0)]) == 1
    ensures Granted(Fresh(1, rate, 0), [Take(1, 0), Poll(UNITS), Take(1, 0)]) == 2
  {
    assert UNITS * rate >= UNITS;
    var s := Fresh(1, rate, 0);
    var t := After(s, Take(1, 0));
    assert t == State(1, rate, 0, 0);
    assert [Take(1, 0), Take(1, 0)][1..] == [Take(1, 0)];
    assert [Take(1, 0), Poll(UNITS), Take(1, 0)][1..] == [Poll(UNITS), Take(1, 0)];
    assert [Poll(UNITS), Take(1, 0)][1..] == [Take(1, 0)];
    LastTake(t);
    LastTake(After(t, Poll(UNITS)));
  }

  lemma LastTake(s: State)
    ensures Granted(s, [Take(1, 0)]) == if CanTake(s, 1, 0) then 1 else 0
  {
    assert [Take(1, 0)][1..] == [];
  }

  lemma {:induction false} RunSplits(s: State, a: seq<Call>, b: seq<Call>)
    ensures Run(s, a + b) == Run(Run(s, a), b)
    ensures Granted(s, a + b) == Granted(s, a) + Granted(Run(s, a), b)
    decreases |a|
  {
    if a == [] {
      assert a + b == b;
    } else {
      RunSplits(After(s, a[0]), a[1..], b);
      assert (a + b)[0] == a[0] && (a + b)[1..] == a[1..] + b;
    }
  }

  lemma PollFirst(m: State, poll: int, tail: seq<Call>)
    requires WithinCapacity(m) && tail != [] && poll <= Max(m.last, tail[0].now)
    ensures Run(m, [Poll(poll)]) == Refilled(m, poll)
    ensures Run(m, [Poll(poll)] + tail) == Run(m, tail) && Granted(m, [Poll(poll)] + tail) == Granted(m, tail)
    ensures Outcomes(Refilled(m, poll), tail) == Outcomes(m, tail)
  {
    assert [Poll(poll)][1..] == [] && ([Poll(poll)] + tail)[1..] == tail;
    PollIsInvisible(m, poll, tail[0].now);
    assert After(Refilled(m, poll), tail[0]) == After(m, tail[0]);
  }

  /** So a poll inserted anywhere before a call that is not behind it changes no later outcome. */
  lemma PollChangesNothing(s: State, before: seq<Call>, poll: int, next: Call, rest: seq<Call>)
    requires WithinCapacity(s)
    requires poll <= Max(Run(s, before).last, next.now)
    ensures Run(s, before + [Poll(poll), next] + rest) == Run(s, before + [next] + rest)
    ensures Granted(s, before + [Poll(poll), next] + rest) == Granted(s, before + [next] + rest)
    ensures Outcomes(Run(s, before + [Poll(poll)]), [next] + rest) == Outcomes(Run(s, before), [next] + rest)
  {
    var tail := [next] + rest;
    assert before + [Poll(poll), next] + rest == before + ([Poll(poll)] + tail);
    assert before + [next] + rest == before + tail;
    RunSplits(s, before, [Poll(poll)] + tail);
    RunSplits(s, before, tail);
    RunSplits(s, before, [Poll(poll)]);
    RunStaysWithinCapacity(s, before);
    PollFirst(Run(s, before), poll, tail);
  }

  /**
   * The reported wait is the least whole number of milliseconds after which a take succeeds, counted
   * from the later of the reading and the last refill: a clock that has stepped back has that to make up.
   */
  lemma WaitIsLeast(s: State, count: nat, now: int, ms: nat)
    requires WithinCapacity(s) && count <= s.capacity && s.rate > 0
    ensures Wait(s, count, now).Some?
    ensures var w := Wait(s, count, now).value;
            CanTake(Refilled(s, now), count, now + ms) <==> ms >= if w == 0 then 0 else w + Max(0, s.last - now)
  {
    RefillStaysWithin(s, now);
    var r := Refilled(s, now);
    var deficit, gained := count * UNITS - r.units, Max(0, now + ms - r.last);
    assert gained == Max(0, ms - Max(0, s.last - now));
    assert gained * s.rate >= 0;
    assert count * UNITS <= s.capacity * UNITS;
    assert CanTake(r, count, now + ms) <==> gained * s.rate >= deficit;
    if deficit > 0 {
      CeilingIsLeast(deficit, s.rate, gained);
      CeilingIsLeast(deficit, s.rate, 0);
    }
  }

  /**
   * A new bucket gives out its capacity at once and nothing more; emptied, it gives out tokens again
   * exactly when as many have accrued at its rate a minute, up to its capacity.
   */
  lemma EmptiedBucketRefills(capacity: nat, rate: nat, start: int, count: nat, ms: nat)
    ensures CanTake(Fresh(capacity, rate, start), count, start) <==> count <= capacity
    ensures var empty := Taken(Fresh(capacity, rate, start), capacity, start);
            CanTake(empty, count, start + ms) <==> count <= capacity && ms * rate >= count * 60_000
  {
    var empty := Taken(Fresh(capacity, rate, start), capacity, start);
    assert empty == State(capacity, rate, 0, start);
    assert ms * rate >= 0;
    assert count <= capacity <==> count * UNITS <= capacity * UNITS;
  }

  /** The wait an emptied bucket reports: none for nothing, and else the ceiling of the time the tokens take. */
  lemma EmptiedBucketWaits(capacity: nat, rate: nat, start: int, count: nat)
    requires rate > 0 && 0 < count <= capacity
    ensures var empty := Taken(Fresh(capacity, rate, start), capacity, start);
            var w := Wait(empty, count, start);
            w.Some? && w.value * rate >= count * 60_000 && (w.value - 1) * rate < count * 60_000
  {
    var empty := Taken(Fresh(capacity, rate, start), capacity, start);
    assert empty == State(capacity, rate, 0, start);
    var deficit := count * 60_000;
    assert Wait(empty, count, start) == Some((deficit + rate - 1) / rate);
    var w := (deficit + rate - 1) / rate;
    CeilingIsLeast(deficit, rate, w);
    CeilingIsLeast(deficit, rate, w - 1);
  }

  /** Without a rate the wait is infinite exactly when a take never succeeds, and zero otherwise. */
  lemma NoRateNoHope(s: State, count: nat, now: int)
    requires WithinCapacity(s) && s.rate == 0
    ensures Wait(s, count, now) == None <==> forall later: int :: !CanTake(s, count, later)
    ensures Wait(s, count, now) in {None, Some(0)}
  {
    forall later: int
      ensures CanTake(s, count, later) <==> s.units >= count * UNITS
    {
      assert Max(0, later - s.last) * s.rate == 0;
    }
    assert CanTake(s, count, now) <==> s.units >= count * UNITS;
  }

  lemma ProductGrows(a: nat, b: nat, d: nat)
    requires a <= b
    ensures a * d <= b * d
  {
  }

  lemma CeilingIsLeast(n: nat, d: nat, k: nat)
    requires d > 0
    ensures k * d >= n <==> k >= (n + d - 1) / d
  {
    var q := (n + d - 1) / d;
    var r := (n + d - 1) % d;
    assert n + d - 1 == q * d + r;
    if k >= q {
      ProductGrows(q, k, d);
    } else {
      ProductGrows(k, q - 1, d);
      assert (q - 1) * d == q * d - d;
    }
  }

  /** Asking for more than the capacity never succeeds, however long the caller waits. */
  lemma BeyondCapacityNeverSucceeds(s: State, count: nat, now: int)
    requires count > s.capacity
    ensures !CanTake(s, count, now)
  {
    assert count * UNITS > s.capacity * UNITS;
  }
}
