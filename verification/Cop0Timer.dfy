/** COP0's free-running registers: `Count` derived from the timeline, the timer's edge detector
    that polls it, and `Random` with its closed form. */
module Cop0Timer {
  import opened MachineWords

  /** One full turn of the 32-bit counter. */
  const WRAP: nat := 0x1_0000_0000

  // ----- Count and the timer

  /** `Count` at timeline position t: affine in t, modulo one turn. */
  function CountAt(epochValue: u32, epochTick: nat, t: nat): u32 {
    (epochValue + (t - epochTick)) % WRAP
  }

  /** The edge detector's decision, from the two counter values and `Compare` alone. */
  predicate Crossed(last: u32, now: u32, compare: u32) {
    var traveled := (now - last) % WRAP;
    var toCompare := (compare - last) % WRAP;
    traveled != 0 && toCompare != 0 && toCompare <= traveled
  }

  /** How many positions in (from, until] have `Count` equal to `Compare`. */
  ghost function Matches(epochValue: u32, epochTick: nat, compare: u32, from: nat, until: nat): nat
    decreases until
  {
    if until <= from then 0
    else
      Matches(epochValue, epochTick, compare, from, until - 1)
      + if CountAt(epochValue, epochTick, until) == compare then 1 else 0
  }

  lemma {:induction false} MatchesSplit(e: u32, tick: nat, compare: u32, a: nat, b: nat, c: nat)
    requires a <= b <= c
    ensures Matches(e, tick, compare, a, c) == Matches(e, tick, compare, a, b) + Matches(e, tick, compare, b, c)
    decreases c
  {
    if b < c {
      MatchesSplit(e, tick, compare, a, b, c - 1);
    }
  }

  /** Within one turn the first match after `from` is `toCompare` positions away, and it is alone. */
  lemma {:induction false} MatchesWithinTurn(e: u32, tick: nat, compare: u32, from: nat, gap: nat)
    requires gap <= WRAP
    ensures
      var toCompare := (compare - CountAt(e, tick, from)) % WRAP;
      Matches(e, tick, compare, from, from + gap)
      == if (0 < toCompare <= gap) || (toCompare == 0 && gap == WRAP) then 1 else 0
    decreases gap
  {
    hide CountAt;
    if gap > 0 {
      MatchesWithinTurn(e, tick, compare, from, gap - 1);
      MatchAtGap(e, tick, compare, from, gap);
    }
  }

  lemma MatchAtGap(e: u32, tick: nat, compare: u32, from: nat, gap: nat)
    requires 0 < gap <= WRAP
    ensures CountAt(e, tick, from + gap) == compare
        <==> (compare - CountAt(e, tick, from)) % WRAP == gap % WRAP
  {
    assert CountAt(e, tick, from + gap) == (CountAt(e, tick, from) + gap) % WRAP;
  }

  lemma CountAfterTurn(e: u32, tick: nat, t: nat)
    ensures CountAt(e, tick, t + WRAP) == CountAt(e, tick, t)
  {
  }

  lemma Traveled(e: u32, tick: nat, from: nat, gap: nat)
    requires gap < WRAP
    ensures (CountAt(e, tick, from + gap) - CountAt(e, tick, from)) % WRAP == gap
  {
  }

  /** For every gap between two polls, what the poll reports falls short of the matches that
      happened by exactly one per whole turn it slept through. */
  lemma {:induction false} PollMissesOnePerTurn(e: u32, tick: nat, compare: u32, from: nat, gap: nat)
    ensures Matches(e, tick, compare, from, from + gap)
      == gap / WRAP + if Crossed(CountAt(e, tick, from), CountAt(e, tick, from + gap), compare) then 1 else 0
    decreases gap
  {
    hide Matches, CountAt;
    if gap < WRAP {
      MatchesWithinTurn(e, tick, compare, from, gap);
      Traveled(e, tick, from, gap);
    } else {
      MatchesWithinTurn(e, tick, compare, from, WRAP);
      MatchesSplit(e, tick, compare, from, from + WRAP, from + gap);
      CountAfterTurn(e, tick, from);
      PollMissesOnePerTurn(e, tick, compare, from + WRAP, gap - WRAP);
    }
  }

  /** No edge is lost or doubled exactly when the gap is shorter than one turn. */
  lemma PollIsExactIffShort(e: u32, tick: nat, compare: u32, from: nat, gap: nat)
    ensures gap < WRAP <==>
      Matches(e, tick, compare, from, from + gap)
      == if Crossed(CountAt(e, tick, from), CountAt(e, tick, from + gap), compare) then 1 else 0
  {
    PollMissesOnePerTurn(e, tick, compare, from, gap);
  }

  /** How far the timeline may run before a poll could report an edge. */
  function TicksUntilMatch(last: u32, compare: u32): nat {
    var toCompare := (compare - last) % WRAP;
    if toCompare == 0 then WRAP - 1 else toCompare
  }

  /** Unless `Compare` sits exactly on the last polled value, the bound is the first gap that
      fires; when it does, no gap shorter than a turn fires at all. */
  lemma BoundIsFirstFiringGap(e: u32, tick: nat, compare: u32, from: nat, gap: nat)
    requires gap < WRAP
    ensures
      var last := CountAt(e, tick, from);
      Crossed(last, CountAt(e, tick, from + gap), compare)
      <==> last != compare && TicksUntilMatch(last, compare) <= gap
  {
    var last := CountAt(e, tick, from);
    Traveled(e, tick, from, gap);
    assert (compare - last) % WRAP == 0 <==> compare == last;
  }

  // ----- skipping polls

  /** The part of COP0 the edge detector reads. */
  datatype TimerView = TimerView(epochValue: u32, epochTick: nat, compare: u32, lastCount: u32) {
    /** The detector last looked, or was re-based, at timeline position p. */
    predicate PolledAt(p: nat) {
      lastCount == CountAt(epochValue, epochTick, p)
    }

    /** `count_ticks_until_timer_match`. */
    function Bound(): nat {
      TicksUntilMatch(lastCount, compare)
    }

    /** Positions from the last poll to the first match after it. */
    function FirstMatch(): (gap: nat)
      ensures 0 < gap <= WRAP
    {
      var toCompare := (compare - lastCount) % WRAP;
      if toCompare == 0 then WRAP else toCompare
    }

    /** The polls at start, start + 1, ... are skipped, `skipped` of them, and not one of them would
        have found a match behind it. */
    ghost predicate OnTime(polled: nat, start: nat, skipped: nat) {
      forall p :: start <= p < start + skipped ==> Matches(epochValue, epochTick, compare, polled, p) == 0
    }
  }

  /** A match lies behind a position exactly when the first one does. */
  lemma MatchBehindIff(t: TimerView, polled: nat, gap: nat)
    requires t.PolledAt(polled)
    ensures Matches(t.epochValue, t.epochTick, t.compare, polled, polled + gap) > 0 <==> t.FirstMatch() <= gap
  {
    hide Matches, CountAt;
    if gap <= WRAP {
      MatchesWithinTurn(t.epochValue, t.epochTick, t.compare, polled, gap);
    } else {
      MatchesWithinTurn(t.epochValue, t.epochTick, t.compare, polled, WRAP);
      MatchesSplit(t.epochValue, t.epochTick, t.compare, polled, polled + WRAP, polled + gap);
    }
  }

  /** Skipping polls delays no interrupt exactly when the poll that ends the stretch comes no later
      than the first match after the last one, counted from that last poll. */
  lemma SkippingIsOnTimeIff(t: TimerView, polled: nat, start: nat, skipped: nat)
    requires t.PolledAt(polled) && polled <= start
    ensures t.OnTime(polled, start, skipped) <==> skipped == 0 || start + skipped - polled <= t.FirstMatch()
  {
    hide Matches;
    forall p | start <= p < start + skipped
      ensures Matches(t.epochValue, t.epochTick, t.compare, polled, p) == 0 <==> p - polled < t.FirstMatch()
    {
      MatchBehindIff(t, polled, p - polled);
    }
    if skipped > 0 {
      var end := start + skipped - 1;
      assert Matches(t.epochValue, t.epochTick, t.compare, polled, end) == 0 <==> end - polled < t.FirstMatch();
    }
  }

  /** As many polls as the bound allows may be skipped exactly when the stretch starts at the last
      poll, or one position after it with `Compare` sitting on it. */
  lemma BoundIsOnTimeIff(t: TimerView, polled: nat, start: nat)
    requires t.PolledAt(polled) && polled <= start
    ensures t.OnTime(polled, start, t.Bound()) <==>
            start - polled <= if t.lastCount == t.compare then 1 else 0
  {
    SkippingIsOnTimeIff(t, polled, start, t.Bound());
    assert (t.compare - t.lastCount) % WRAP == 0 <==> t.compare == t.lastCount;
    hide Matches, CountAt;
  }

  /** The counters a run of polls leaves behind. */
  class Timer {
    var compare: u32
    /** The timeline position, set by the scheduler. */
    var now: nat
    var epochValue: u32
    var epochTick: nat
    var lastCount: u32
    /** The latched timer interrupt, `Cause.IP7`. */
    var ip7: bool
    /** Where the detector last looked, or was re-based. */
    ghost var polled: nat

    ghost predicate Valid()
      reads this
    {
      polled <= now && lastCount == CountAt(epochValue, epochTick, polled)
    }

    /** Positions of (from, until] where the derived `Count` equals `Compare`. */
    ghost function MatchesIn(from: nat, until: nat): nat
      reads this
    {
      Matches(epochValue, epochTick, compare, from, until)
    }

    constructor ()
      ensures Valid() && now == polled == 0 && compare == 0 && !ip7
    {
      compare, now, epochValue, epochTick, lastCount, ip7, polled := 0, 0, 0, 0, 0, false, 0;
    }

    function Count(): u32
      reads this
    {
      CountAt(epochValue, epochTick, now)
    }

    method SetNow(t: nat)
      requires Valid() && now <= t
      modifies this`now
      ensures Valid() && now == t
    {
      now := t;
    }

    /** `MTC0 Count` re-bases the mapping so that `Count` reads what was written, and starts the
        next interval here: the write itself can never be taken for a crossing. */
    method WriteCount(value: u32)
      requires Valid()
      modifies this`epochValue, this`epochTick, this`lastCount, this`polled
      ensures Valid() && polled == now && Count() == value
    {
      epochValue := value;
      epochTick := now;
      lastCount := Count();
      polled := now;
    }

    /** `MTC0 Compare` acknowledges the interrupt and re-bases the detector. */
    method WriteCompare(value: u32)
      requires Valid()
      modifies this`compare, this`ip7, this`lastCount, this`polled
      ensures Valid() && polled == now && compare == value && !ip7
    {
      compare := value;
      ip7 := false;
      lastCount := Count();
      polled := now;
    }

    /** `timer_edge`: the poll reports a match for each one since the last poll, less the whole
        turns slept through. */
    method TimerEdge() returns (edge: bool)
      requires Valid()
      modifies this`lastCount, this`polled
      ensures Valid() && polled == now
      ensures MatchesIn(old(polled), now) == (now - old(polled)) / WRAP + if edge then 1 else 0
    {
      PollMissesOnePerTurn(epochValue, epochTick, compare, polled, now - polled);
      var count := Count();
      edge := Crossed(lastCount, count, compare);
      lastCount := count;
      polled := now;
    }

    /** Poll i comes less than a turn after the one before it. */
    static ghost predicate ShortGap(start: nat, times: seq<nat>, i: nat)
      requires i < |times|
    {
      var before := if i == 0 then start else times[i - 1];
      before <= times[i] < before + WRAP
    }

    /** The pipeline's use of the detector at every instruction boundary, over a series of polls
        less than a turn apart: no timer interrupt is lost and none is raised twice. */
    method PollAll(times: seq<nat>) returns (edges: nat)
      requires Valid() && polled == now
      requires forall i :: 0 <= i < |times| ==> ShortGap(now, times, i)
      modifies this`now, this`lastCount, this`polled, this`ip7
      ensures Valid()
      ensures now == if times == [] then old(now) else times[|times| - 1]
      ensures edges == MatchesIn(old(now), now)
      ensures ip7 <==> old(ip7) || edges > 0
    {
      edges := 0;
      ghost var start := now;
      for i := 0 to |times|
        invariant Valid() && polled == now && start <= now
        invariant now == if i == 0 then start else times[i - 1]
        invariant edges == MatchesIn(start, now)
        invariant ip7 <==> old(ip7) || edges > 0
      {
        assert ShortGap(start, times, i);
        MatchesSplit(epochValue, epochTick, compare, start, now, times[i]);
        SetNow(times[i]);
        var edge := TimerEdge();
        if edge {
          ip7 := true;
          edges := edges + 1;
        }
      }
    }
  }

  // ----- Random

  type SixBits = x: int | 0 <= x < 64

  /** `tick_random`: a six-bit down-counter that reloads 31 when it stands on `Wired`. */
  function RandomStep(wired: SixBits, cur: SixBits): SixBits {
    if cur == wired then 31 else (cur - 1) % 64
  }

  function RandomSteps(wired: SixBits, cur: SixBits, n: nat): SixBits {
    if n == 0 then cur else RandomStep(wired, RandomSteps(wired, cur, n - 1))
  }

  /** `tick_random_by`: a walk down to `Wired`, then a cycle re-entered from 31. */
  function RandomBy(wired: SixBits, cur: SixBits, n: nat): SixBits {
    var d := (cur - wired) % 64;
    if n <= d then (cur - n) % 64
    else (31 - Into(n - d - 1, (31 - wired) % 64 + 1)) % 64
  }

  /** How far into the cycle, counting the jump to 31 as position zero. */
  function Into(ticks: nat, cycle: nat): (i: nat)
    requires 0 < cycle
    ensures i < cycle
  {
    ticks % cycle
  }

  /** The closed form takes one more step as the counter does. */
  lemma RandomByStep(wired: SixBits, cur: SixBits, n: nat)
    ensures RandomBy(wired, cur, n + 1) == RandomStep(wired, RandomBy(wired, cur, n))
  {
    if n > (cur - wired) % 64 {
      RandomByCycles(wired, cur, n);
    } else {
      RandomByWalks(wired, cur, n);
    }
    hide *;
  }

  lemma RandomByCycles(wired: SixBits, cur: SixBits, n: nat)
    requires n > (cur - wired) % 64
    ensures RandomBy(wired, cur, n + 1) == RandomStep(wired, RandomBy(wired, cur, n))
  {
    hide Into;
    var d := (cur - wired) % 64;
    var cycle := (31 - wired) % 64 + 1;
    NextInCycle(n - d - 1, cycle);
    CycleEndsAtWired(wired, Into(n - d - 1, cycle));
  }

  lemma RandomByWalks(wired: SixBits, cur: SixBits, n: nat)
    requires n <= (cur - wired) % 64
    ensures RandomBy(wired, cur, n + 1) == RandomStep(wired, RandomBy(wired, cur, n))
  {
    hide Into;
    WalkToWired(wired, cur, n);
    FirstOfCycle((31 - wired) % 64 + 1);
  }

  lemma WalkToWired(wired: SixBits, cur: SixBits, n: nat)
    requires n <= (cur - wired) % 64
    ensures (cur - n) % 64 == wired <==> n == (cur - wired) % 64
    ensures (cur - (n + 1)) % 64 == ((cur - n) % 64 - 1) % 64
  {
  }

  lemma FirstOfCycle(cycle: nat)
    requires 0 < cycle
    ensures Into(0, cycle) == 0
  {
  }

  lemma CycleEndsAtWired(wired: SixBits, into: nat)
    requires into < (31 - wired) % 64 + 1
    ensures (31 - into) % 64 == wired <==> into == (31 - wired) % 64
    ensures (31 - into) % 64 != wired ==> (31 - (into + 1)) % 64 == ((31 - into) % 64 - 1) % 64
  {
    WrapsOnce(31 - into);
    WrapsOnce(31 - wired);
    WrapsOnce(31 - (into + 1));
  }

  /** A remainder within one turn of zero. */
  lemma WrapsOnce(x: int)
    ensures -64 <= x < 64 ==> x % 64 == if x < 0 then x + 64 else x
  {
  }

  lemma NextInCycle(a: nat, cycle: nat)
    requires 0 < cycle
    ensures Into(a + 1, cycle) == if Into(a, cycle) == cycle - 1 then 0 else Into(a, cycle) + 1
  {
    var q, r := a / cycle, a % cycle;
    assert a == q * cycle + r;
    if r == cycle - 1 {
      assert a + 1 == (q + 1) * cycle;
      QuotientUnique(a + 1, cycle, q + 1, 0);
    } else {
      QuotientUnique(a + 1, cycle, q, r + 1);
    }
  }

  /** For every start, every `Wired` (above 31 and above `Random` included) and every count. */
  lemma {:induction false} RandomByIsIteration(wired: SixBits, cur: SixBits, n: nat)
    ensures RandomBy(wired, cur, n) == RandomSteps(wired, cur, n)
  {
    if n > 0 {
      RandomByIsIteration(wired, cur, n - 1);
      RandomByStep(wired, cur, n - 1);
    }
  }

  lemma {:induction false} RandomStepsCompose(wired: SixBits, cur: SixBits, a: nat, b: nat)
    ensures RandomSteps(wired, RandomSteps(wired, cur, a), b) == RandomSteps(wired, cur, a + b)
    decreases b
  {
    if b > 0 {
      RandomStepsCompose(wired, cur, a, b - 1);
    }
  }

  /** Batches compose: skipping a and then b ticks is skipping a + b. */
  lemma RandomByComposes(wired: SixBits, cur: SixBits, a: nat, b: nat)
    ensures RandomBy(wired, RandomBy(wired, cur, a), b) == RandomBy(wired, cur, a + b)
  {
    RandomByIsIteration(wired, cur, a);
    RandomByIsIteration(wired, RandomSteps(wired, cur, a), b);
    RandomByIsIteration(wired, cur, a + b);
    RandomStepsCompose(wired, cur, a, b);
  }

  /** A wired TLB entry is never chosen: from the reload value on, `Random` stays in
      `Wired`..31, and with `Wired` beyond 31 it sweeps on below 31 instead of sticking. */
  lemma {:induction false} RandomNeverWired(wired: SixBits, n: nat)
    ensures wired <= 31 ==> wired <= RandomSteps(wired, 31, n) <= 31
    ensures wired > 31 && n <= 31 ==> RandomSteps(wired, 31, n) == 31 - n
  {
    if n > 0 {
      RandomNeverWired(wired, n - 1);
      WrapsOnce(RandomSteps(wired, 31, n - 1) - 1);
    }
  }

  class RandomCounter {
    var wired: SixBits
    var random: SixBits

    constructor ()
      ensures wired == 0 && random == 31
    {
      wired, random := 0, 31;
    }

    /** Writing `Wired` reloads `Random` as well. */
    method WriteWired(value: u32)
      modifies this
      ensures wired == value % 64 && random == 31
    {
      wired := value % 64;
      random := 31;
    }

    method TickRandom()
      modifies this`random
      ensures random == RandomSteps(wired, old(random), 1)
    {
      random := if random == wired then 31 else (random - 1) % 64;
    }

    /** `tick_random_by`: n ticks in constant time. */
    method TickRandomBy(n: nat)
      modifies this`random
      ensures random == RandomSteps(wired, old(random), n)
    {
      RandomByIsIteration(wired, random, n);
      random := RandomBy(wired, random, n);
    }
  }
}
