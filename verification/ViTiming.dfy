/** The VI's scan position, advanced off the master clock one half-line at a time. */
module ViTiming {
  import opened MachineWords

  const FIELD_HZ: nat := 60
  const FIELD_HZ_PAL: nat := 50
  const MAX_HALFLINES: nat := 1024
  /** The shortest period any programming can produce. */
  const MIN_TICKS_PER_HALFLINE: nat := MASTER_HZ / (FIELD_HZ * MAX_HALFLINES)
  const PAL_V_TOTAL_THRESHOLD: nat := 550

  const VI_CTRL: nat := 0
  const VI_V_INTR: nat := 3
  const VI_V_TOTAL: nat := 6

  // ----- the register-derived timing

  function Halflines(vTotal: u32): (n: nat)
    ensures 1 <= n <= MAX_HALFLINES
  {
    vTotal % 0x400 + 1
  }

  function FieldHz(vTotal: u32): nat {
    if vTotal % 0x400 > PAL_V_TOTAL_THRESHOLD then FIELD_HZ_PAL else FIELD_HZ
  }

  /** The early-out bound is sound for every register value: no half-line is shorter. */
  function Period(vTotal: u32): (p: nat)
    ensures MIN_TICKS_PER_HALFLINE <= p
    ensures p <= MASTER_HZ
  {
    DivisorBounds(FieldHz(vTotal) * Halflines(vTotal));
    MASTER_HZ / (FieldHz(vTotal) * Halflines(vTotal))
  }

  lemma DivisorBounds(divisor: nat)
    requires 0 < divisor <= FIELD_HZ * MAX_HALFLINES
    ensures MIN_TICKS_PER_HALFLINE <= MASTER_HZ / divisor <= MASTER_HZ
  {
    ProductMonotone(MIN_TICKS_PER_HALFLINE, MIN_TICKS_PER_HALFLINE, divisor, FIELD_HZ * MAX_HALFLINES);
    QuotientAtLeast(MASTER_HZ, divisor, MIN_TICKS_PER_HALFLINE);
    QuotientAtMost(MASTER_HZ, divisor);
  }

  lemma QuotientAtLeast(n: nat, m: nat, q: nat)
    requires 0 < m && q * m <= n
    ensures q <= n / m
  {
    var rest := n - q * m;
    assert rest == rest / m * m + rest % m;
    assert (q + rest / m) * m == q * m + rest / m * m;
    QuotientUnique(n, m, q + rest / m, rest % m);
  }

  lemma QuotientAtMost(n: nat, m: nat)
    requires 0 < m
    ensures n / m <= n
  {
    assert n == n / m * m + n % m;
    ProductMonotone(n / m, n / m, 1, m);
  }

  lemma ProductMonotone(a: nat, aMax: nat, b: nat, bMax: nat)
    requires a <= aMax && b <= bMax
    ensures a * b <= aMax * bMax
  {
    assert a * b <= aMax * b <= aMax * bMax;
  }

  /** A field is one sixtieth of a second in half-lines of whole ticks, or one fiftieth when the
      programmed total is PAL's. */
  lemma FieldLasts(vTotal: u32)
    ensures
      var halflines, hz := vTotal % 0x400 + 1, if vTotal % 0x400 <= 550 then 60 else 50;
      Halflines(vTotal) == halflines &&
      Period(vTotal) * (hz * halflines) <= 187_500_000 < (Period(vTotal) + 1) * (hz * halflines)
  {
    var divisor := FieldHz(vTotal) * Halflines(vTotal);
    var q := MASTER_HZ / divisor;
    assert MASTER_HZ == q * divisor + MASTER_HZ % divisor;
    assert (q + 1) * divisor == q * divisor + divisor;
  }

  // ----- the closed form

  /** Half-lines completed by `acc` ticks, and the position they lead to. */
  function Advanced(v: nat, k: nat, halflines: nat): nat
    requires 0 < halflines
  {
    if k == 0 then v else (v + k) % halflines
  }

  /** One of the k landings after position v is on half-line `intr`. */
  ghost predicate Lands(v: nat, k: nat, halflines: nat, intr: nat)
    requires 0 < halflines
  {
    exists j :: 1 <= j <= k && Advanced(v, j, halflines) == intr
  }

  /** Landings needed to reach half-line `intr`, counting forward from position v. */
  function Distance(v: nat, halflines: nat, intr: nat): (d: nat)
    requires 0 < halflines
    ensures 1 <= d <= halflines
  {
    (intr - v - 1) % halflines + 1
  }

  /** A half-line is landed on exactly when it exists in the field and is near enough. */
  lemma LandsIffNearEnough(v: nat, k: nat, halflines: nat, intr: nat)
    requires 0 < halflines
    ensures Lands(v, k, halflines, intr) <==> intr < halflines && Distance(v, halflines, intr) <= k
  {
    var d := Distance(v, halflines, intr);
    if intr < halflines {
      DistanceLands(v, halflines, intr);
      assert Advanced(v, d, halflines) == intr;
    }
    if Lands(v, k, halflines, intr) {
      var j :| 1 <= j <= k && Advanced(v, j, halflines) == intr;
      if j < d {
        EarlierMisses(v, halflines, intr, j);
      }
    }
  }

  lemma DistanceLands(v: nat, halflines: nat, intr: nat)
    requires 0 < halflines && intr < halflines
    ensures (v + Distance(v, halflines, intr)) % halflines == intr
  {
    var gap := intr - v - 1;
    var q := gap / halflines;
    assert gap == q * halflines + gap % halflines;
    assert v + Distance(v, halflines, intr) == intr + (-q) * halflines;
    QuotientUnique(v + Distance(v, halflines, intr), halflines, -q, intr);
  }

  /** No landing before the distance is on the half-line. */
  lemma EarlierMisses(v: nat, halflines: nat, intr: nat, j: nat)
    requires 0 < halflines && intr < halflines && 1 <= j < Distance(v, halflines, intr)
    ensures (v + j) % halflines != intr
  {
    var d := Distance(v, halflines, intr);
    DistanceLands(v, halflines, intr);
    if (v + j) % halflines == intr {
      var a, b := (v + d) / halflines, (v + j) / halflines;
      assert v + d == a * halflines + intr && v + j == b * halflines + intr;
      assert (a - b) * halflines == d - j;
      SmallMultipleIsZero(a - b, halflines);
    }
  }

  /** Landing k more times after j landings is landing j + k times, from any position. */
  lemma AdvancedComposes(v: nat, j: nat, k: nat, halflines: nat)
    requires 0 < halflines
    ensures Advanced(Advanced(v, j, halflines), k, halflines) == Advanced(v, j + k, halflines)
  {
    if 0 < j && 0 < k {
      var q := (v + j) / halflines;
      var r := ((v + j) % halflines + k) / halflines;
      assert v + j == q * halflines + (v + j) % halflines;
      assert (v + j) % halflines + k == r * halflines + ((v + j) % halflines + k) % halflines;
      assert v + (j + k) == ((v + j) % halflines + k) % halflines + (q + r) * halflines;
      QuotientUnique(v + (j + k), halflines, q + r, ((v + j) % halflines + k) % halflines);
    }
  }

  /** The landings of two spans are those of the first followed by those of the second. */
  lemma LandsSplits(v: nat, j: nat, k: nat, halflines: nat, intr: nat)
    requires 0 < halflines
    ensures Lands(v, j + k, halflines, intr)
        <==> Lands(v, j, halflines, intr) || Lands(Advanced(v, j, halflines), k, halflines, intr)
  {
    if Lands(v, j + k, halflines, intr) {
      var i :| 1 <= i <= j + k && Advanced(v, i, halflines) == intr;
      if i > j {
        AdvancedComposes(v, j, i - j, halflines);
        assert Advanced(Advanced(v, j, halflines), i - j, halflines) == intr;
      }
    }
    if Lands(Advanced(v, j, halflines), k, halflines, intr) {
      var i :| 1 <= i <= k && Advanced(Advanced(v, j, halflines), i, halflines) == intr;
      AdvancedComposes(v, j, i, halflines);
      assert Advanced(v, j + i, halflines) == intr;
    }
  }

  /** The whole scan state, as a value. */
  datatype Scan = Scan(vCurrent: nat, acc: nat, prevTicks: nat)

  /** What the registers say about timing. */
  datatype Timing = Timing(period: nat, halflines: nat, intr: nat, on: bool)

  type SoundTiming = t: Timing |
      MIN_TICKS_PER_HALFLINE <= t.period <= MASTER_HZ && 1 <= t.halflines <= MAX_HALFLINES
    witness Timing(MASTER_HZ, 1, 0, false)

  function TimingOf(ctrl: u32, vIntr: u32, vTotal: u32): SoundTiming {
    Timing(Period(vTotal), Halflines(vTotal), vIntr % 0x400, ctrl % 4 != 0)
  }

  function Whole(total: nat, period: nat): nat
    requires 0 < period
  {
    total / period
  }

  function Rest(total: nat, period: nat): nat
    requires 0 < period
  {
    total % period
  }

  /** Ticks to account for at `now`: the carried remainder and the time since the last tick. */
  function Due(s: Scan, now: nat): nat {
    s.acc + SaturatingSub(now, s.prevTicks)
  }

  /** The closed form of a tick under fixed registers. */
  function Ticked(t: SoundTiming, s: Scan, now: nat): Scan {
    Scan(Advanced(s.vCurrent, Whole(Due(s, now), t.period), t.halflines), Rest(Due(s, now), t.period), now)
  }

  /** The interrupt a tick reports: the VI is on and one of its landings is `VI_V_INTR`. */
  ghost predicate Fires(t: SoundTiming, s: Scan, now: nat) {
    t.on && Lands(s.vCurrent, Whole(Due(s, now), t.period), t.halflines, t.intr)
  }

  /** Cutting a span into two ticks anywhere changes neither where the scan ends, nor the
      remainder it carries, nor whether an interrupt was reported on the way. */
  lemma TickSlices(t: SoundTiming, s: Scan, mid: nat, now: nat)
    requires s.prevTicks <= mid <= now
    ensures Ticked(t, Ticked(t, s, mid), now) == Ticked(t, s, now)
    ensures Fires(t, s, now) <==> Fires(t, s, mid) || Fires(t, Ticked(t, s, mid), now)
  {
    hide Advanced, Lands, Whole, Rest;
    var first := Due(s, mid);
    var second := Rest(first, t.period) + (now - mid);
    WholeSplits(first, now - mid, t.period);
    AdvancedComposes(s.vCurrent, Whole(first, t.period), Whole(second, t.period), t.halflines);
    LandsSplits(s.vCurrent, Whole(first, t.period), Whole(second, t.period), t.halflines, t.intr);
  }

  /** Power-on, and what a warm reset goes back to. */
  const RESET_SCAN := Scan(0, 0, 0)

  /** `now` ticks into a timeline whose first field began at tick zero. */
  function FromZero(t: SoundTiming, now: nat): Scan {
    Scan(Whole(now, t.period) % t.halflines, Rest(now, t.period), now)
  }

  /** After a reset the scan is where the new timeline alone puts it. */
  lemma ResetFollowsTheTimeline(t: SoundTiming, now: nat)
    ensures Ticked(t, RESET_SCAN, now) == FromZero(t, now)
    ensures Fires(t, RESET_SCAN, now) <==>
      t.on && t.intr < t.halflines && Distance(0, t.halflines, t.intr) <= Whole(now, t.period)
  {
    LandsIffNearEnough(0, Whole(now, t.period), t.halflines, t.intr);
    assert 0 % t.halflines == 0;
    hide Lands, Whole, Rest;
  }

  /** From a reset on, the interrupt comes with the half-line whose number the low ten bits of
      `VI_V_INTR` give, half-line zero closing the field, if the VI is on and the field has it. */
  lemma InterruptFollowsRegisters(ctrl: u32, vIntr: u32, vTotal: u32, now: nat)
    ensures Fires(TimingOf(ctrl, vIntr, vTotal), RESET_SCAN, now) <==>
      var line, last, done := vIntr % 0x400, vTotal % 0x400, now / Period(vTotal);
      ctrl % 4 > 0 && line <= last && (if line == 0 then last + 1 else line) <= done
  {
    var t := TimingOf(ctrl, vIntr, vTotal);
    ResetFollowsTheTimeline(t, now);
    if t.intr == 0 {
      QuotientUnique(-1, t.halflines, -1, t.halflines - 1);
    } else if t.intr < t.halflines {
      QuotientUnique(t.intr - 1, t.halflines, 0, t.intr - 1);
    }
    hide Period, Fires;
  }

  /** Without the reset a scan left behind in the old timeline loses the first tick of the new one,
      and no more: that tick moves nothing and fires nothing, and re-bases the scan where it is. */
  lemma StaleScanLosesOneTick(t: SoundTiming, s: Scan, first: nat, now: nat)
    requires s.acc < t.period && first <= s.prevTicks && first <= now
    ensures Ticked(t, s, first) == s.(prevTicks := first) && !Fires(t, s, first)
    ensures Ticked(t, Ticked(t, s, first), now) == Ticked(t, s.(prevTicks := first), now)
    ensures Due(Ticked(t, s, first), now) == s.acc + (now - first)
  {
    QuotientUnique(s.acc, t.period, 0, s.acc);
  }

  /** Whole periods of a sum, taken in two parts with the remainder carried over. */
  lemma WholeSplits(first: nat, more: nat, period: nat)
    requires 0 < period
    ensures Whole(first + more, period) == Whole(first, period) + Whole(Rest(first, period) + more, period)
    ensures Rest(first + more, period) == Rest(Rest(first, period) + more, period)
  {
    var j, second := first / period, first % period + more;
    var k := second / period;
    assert first == j * period + first % period;
    assert second == k * period + second % period;
    assert first + more == second % period + (j + k) * period;
    QuotientUnique(first + more, period, j + k, second % period);
  }

  ghost function TickedAll(t: SoundTiming, s: Scan, times: seq<nat>): Scan
    decreases |times|
  {
    if times == [] then s else TickedAll(t, Ticked(t, s, times[0]), times[1..])
  }

  ghost predicate FiresAny(t: SoundTiming, s: Scan, times: seq<nat>)
    decreases |times|
  {
    times != [] && (Fires(t, s, times[0]) || FiresAny(t, Ticked(t, s, times[0]), times[1..]))
  }

  /** Over any forward series of ticks the scan ends where the last tick alone would have taken
      it, and an interrupt was reported iff that one tick would report one. */
  lemma {:induction false} AnySlicingIsOneTick(t: SoundTiming, s: Scan, times: seq<nat>)
    requires times != [] && s.prevTicks <= times[0]
    requires forall i, j :: 0 <= i < j < |times| ==> times[i] <= times[j]
    ensures TickedAll(t, s, times) == Ticked(t, s, times[|times| - 1])
    ensures FiresAny(t, s, times) <==> Fires(t, s, times[|times| - 1])
    decreases |times|
  {
    hide Fires, Advanced, Whole, Rest;
    if |times| > 1 {
      AnySlicingIsOneTick(t, Ticked(t, s, times[0]), times[1..]);
      TickSlices(t, s, times[0], times[|times| - 1]);
    } else {
      assert times[1..] == [];
    }
  }

  // ----- the register file

  class Vi {
    var regs: array<u32>
    var vCurrent: nat
    var acc: u64
    var prevTicks: u64

    ghost predicate Valid()
      reads this
    {
      regs.Length == 16 && vCurrent < MAX_HALFLINES && acc < MASTER_HZ
    }

    ghost function State(): Scan
      reads this
    {
      Scan(vCurrent, acc, prevTicks)
    }

    constructor ()
      ensures Valid() && fresh(regs) && State() == RESET_SCAN
      ensures forall i :: 0 <= i < 16 ==> regs[i] == 0
    {
      regs := new u32[16](_ => 0);
      vCurrent, acc, prevTicks := 0, 0, 0;
    }

    /** A warm reset rebases the scan without touching the registers: from here on the scan is where
        the new timeline puts it. */
    method ResetScan()
      requires Valid()
      modifies this`vCurrent, this`acc, this`prevTicks
      ensures Valid() && State() == RESET_SCAN
      ensures forall now: nat :: Ticked(Programmed(), State(), now) == FromZero(Programmed(), now)
    {
      vCurrent, acc, prevTicks := 0, 0, 0;
      forall now: nat
        ensures Ticked(Programmed(), RESET_SCAN, now) == FromZero(Programmed(), now)
      {
        ResetFollowsTheTimeline(Programmed(), now);
      }
    }

    function Programmed(): (t: SoundTiming)
      requires regs.Length == 16
      reads this, regs
      ensures t == TimingOf(regs[0], regs[3], regs[6])
    {
      TimingOf(regs[VI_CTRL], regs[VI_V_INTR], regs[VI_V_TOTAL])
    }

    /** `Vi::tick`, early-out and stepping loop included: it is the closed form, and it reports
        the interrupt exactly when one of the landings is the programmed half-line. */
    method Tick(now: u64) returns (fired: bool)
      requires Valid()
      requires now <= U64_MAX - MASTER_HZ
      modifies this`vCurrent, this`acc, this`prevTicks
      ensures Valid()
      ensures State() == Ticked(Programmed(), old(State()), now)
      ensures fired <==> Fires(Programmed(), old(State()), now)
    {
      hide Advanced, Lands, Period, Whole, Rest;
      var t := Programmed();
      var delta := SaturatingSub(now, prevTicks);
      prevTicks := now;
      var total: u64 := acc + delta;
      if total < MIN_TICKS_PER_HALFLINE {
        NoLandings(vCurrent, t);
        WholeUnique(total, t.period, 0, total);
        acc := total;
        return false;
      }
      acc := total;
      ghost var k := 0;
      fired := false;
      NoLandings(vCurrent, t);
      while acc >= t.period
        invariant prevTicks == now && acc + k * t.period == total
        invariant vCurrent == Advanced(old(vCurrent), k, t.halflines)
        invariant vCurrent < MAX_HALFLINES
        invariant fired <==> t.on && Lands(old(vCurrent), k, t.halflines, t.intr)
        decreases acc
      {
        OneLanding(old(vCurrent), k, t);
        acc := acc - t.period;
        vCurrent := (vCurrent + 1) % t.halflines;
        if t.on && vCurrent == t.intr {
          fired := true;
        }
        k := k + 1;
      }
      WholeUnique(total, t.period, k, acc);
    }
  }

  lemma WholeUnique(total: nat, period: nat, k: nat, rest: nat)
    requires 0 < period && rest < period && rest + k * period == total
    ensures Whole(total, period) == k && Rest(total, period) == rest
  {
    QuotientUnique(total, period, k, rest);
  }

  lemma NoLandings(v: nat, t: SoundTiming)
    ensures Advanced(v, 0, t.halflines) == v && !Lands(v, 0, t.halflines, t.intr)
  {
  }

  /** One more landing: where it is, and what it adds to the landings so far. */
  lemma OneLanding(v: nat, k: nat, t: SoundTiming)
    ensures
      var next := (Advanced(v, k, t.halflines) + 1) % t.halflines;
      next == Advanced(v, k + 1, t.halflines) &&
      (Lands(v, k + 1, t.halflines, t.intr) <==> Lands(v, k, t.halflines, t.intr) || next == t.intr)
  {
    AdvancedComposes(v, k, 1, t.halflines);
    LandsSplits(v, k, 1, t.halflines, t.intr);
    var w := Advanced(v, k, t.halflines);
    assert Lands(w, 1, t.halflines, t.intr) <==> Advanced(w, 1, t.halflines) == t.intr;
  }
}
