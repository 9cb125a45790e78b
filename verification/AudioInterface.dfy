/** The Audio Interface: registers, and a DAC whose samples fall due on the master timeline. */
module AudioInterface {
  import opened MachineWords
  import opened AudioFifo
  import opened AudioPlayback
  import opened AudioLedger

  const VIDEO_CLOCK_NTSC: u32 := 48_681_812
  const VIDEO_CLOCK_PAL: u32 := 49_656_530
  const DEFAULT_DAC_HZ: u32 := 44_100

  type i16 = x: int | -0x8000 <= x < 0x8000

  datatype Stereo = Stereo(left: i16, right: i16)

  /** What a register write asks of the interrupt line. */
  datatype AiIrq = NoEffect | Raise | Lower

  // ----- rates

  function RateOf(videoClock: u32, dacRate: nat): u32 {
    if videoClock == 0 then 0
    else if dacRate == 0 then DEFAULT_DAC_HZ
    else videoClock / (dacRate + 1)
  }

  function PeriodOf(sampleRate: u32): u64 {
    if sampleRate == 0 then 0 else Max(MASTER_HZ / sampleRate, 1)
  }

  /** The DAC runs at the video clock over one more than the divider, whole hertz, and a sample lasts
      a whole number of master ticks; an unset divider means 44.1 kHz, and without a clock there is
      neither. */
  lemma RatesAreExact(videoClock: u32, dacRate: nat)
    ensures
      var rate := RateOf(videoClock, dacRate);
      (videoClock == 0 ==> rate == 0 && PeriodOf(rate) == 0) &&
      (videoClock > 0 && dacRate == 0 ==> rate == 44_100) &&
      (videoClock > 0 && dacRate > 0 ==> Times(rate, dacRate + 1) <= videoClock < Times(rate + 1, dacRate + 1)) &&
      (0 < rate <= 187_500_000 ==>
        Times(PeriodOf(rate), rate) <= 187_500_000 < Times(PeriodOf(rate) + 1, rate)) &&
      (187_500_000 < rate ==> PeriodOf(rate) == 1)
  {
    if dacRate > 0 {
      QuotientBounds(videoClock, dacRate + 1);
    }
    var rate := RateOf(videoClock, dacRate);
    if rate > 0 {
      QuotientBounds(MASTER_HZ, rate);
      if rate <= MASTER_HZ && MASTER_HZ / rate == 0 {
        assert false;
      }
    }
    hide Times;
  }

  lemma QuotientBounds(n: nat, m: nat)
    requires 0 < m
    ensures Times(n / m, m) <= n < Times(n / m + 1, m)
    ensures m <= n ==> 1 <= n / m
    ensures n < m ==> n / m == 0
  {
    assert n == n / m * m + n % m;
    TimesAdd(n / m, 1, m);
  }

  /** In either region, no value of the 14-bit divider stops the DAC. */
  lemma DacNeverStops(videoClock: u32, dacRate: nat)
    requires videoClock == VIDEO_CLOCK_NTSC || videoClock == VIDEO_CLOCK_PAL
    requires dacRate < 0x4000
    ensures 0 < PeriodOf(RateOf(videoClock, dacRate))
  {
    if dacRate > 0 {
      var divisor := dacRate + 1;
      assert videoClock == videoClock / divisor * divisor + videoClock % divisor;
      assert videoClock / divisor * divisor > 0;
    }
  }

  // ----- one sample

  function Signed(half: nat): i16
    requires half < 0x1_0000
  {
    if half >= 0x8000 then half - 0x1_0000 else half
  }

  function FromWord(word: u32): Stereo {
    Stereo(Signed(word / 0x1_0000), Signed(word % 0x1_0000))
  }

  function Decay(x: i16): i16 {
    TruncatingDiv(x * 63, 64)
  }

  function Decayed(s: Stereo): Stereo {
    Stereo(Decay(s.left), Decay(s.right))
  }

  /** The frame is the word, left half high. */
  predicate Holds(s: Stereo, word: u32) {
    s.left % 0x1_0000 * 0x1_0000 + s.right % 0x1_0000 == word
  }

  lemma FrameHoldsWord(word: u32)
    ensures Holds(FromWord(word), word)
  {
  }

  /** A level falls by a sixty-fourth of its size, rounded toward silence. */
  predicate Fades(from: i16, to: i16) {
    (0 <= from ==> 0 <= to && 64 * to <= 63 * from < 64 * to + 64) &&
    (from <= 0 ==> to <= 0 && 64 * to - 64 < 63 * from <= 64 * to)
  }

  predicate FadesTo(from: Stereo, to: Stereo) {
    Fades(from.left, to.left) && Fades(from.right, to.right)
  }

  lemma FrameFades(s: Stereo)
    ensures FadesTo(s, Decayed(s))
  {
  }

  function DecayedBy(x: i16, n: nat): i16
    decreases n
  {
    if n == 0 then x else DecayedBy(Decay(x), n - 1)
  }

  function Abs(x: int): nat {
    if x >= 0 then x else -x
  }

  /** Truncation makes the decay reach silence instead of stalling short of it: the held level
      never changes sign, shrinks with every idle sample, and is gone after at most |x| of them. */
  lemma {:induction false} DecaySettles(x: i16, n: nat)
    ensures Abs(DecayedBy(x, n)) <= Abs(x)
    ensures x >= 0 ==> DecayedBy(x, n) >= 0
    ensures x <= 0 ==> DecayedBy(x, n) <= 0
    ensures n >= Abs(x) ==> DecayedBy(x, n) == 0
    decreases n
  {
    if n > 0 {
      assert x != 0 ==> Abs(Decay(x)) < Abs(x);
      DecaySettles(Decay(x), n - 1);
    }
  }

  /** The DAC's share of the state, with the interrupts it has raised on the bus. */
  datatype Dac = Dac(fifo: Fifo, hold: Stereo, underruns: nat, sink: seq<Stereo>, raised: nat)

  /** The sample finds the front transfer drained and nothing behind it. */
  predicate Starves(f: Fifo)
    requires Sound(f)
  {
    Drained(Played(f)) && f.count == 1 && f.enabled
  }

  function SampleOf(d: Dac, word: nat -> u32): Stereo {
    if Active(d.fifo) then FromWord(word(ReadAddress(d.fifo))) else Decayed(d.hold)
  }

  function Emitted(d: Dac, word: nat -> u32): (e: Dac)
    requires Sound(d.fifo)
    ensures Sound(e.fifo)
  {
    SampleIsSound(d.fifo);
    var out := SampleOf(d, word);
    Dac(Sampled(d.fifo), out,
        d.underruns + (if Starves(d.fifo) then 1 else 0),
        d.sink + [out],
        d.raised + if Promotes(d.fifo) then 1 else 0)
  }

  /** n samples, the earlier ones first. */
  function EmittedBy(d: Dac, word: nat -> u32, n: nat): (e: Dac)
    requires Sound(d.fifo)
    ensures Sound(e.fifo)
    decreases n
  {
    if n == 0 then d else Emitted(EmittedBy(d, word, n - 1), word)
  }

  lemma EmittedOneMore(d: Dac, word: nat -> u32, n: nat)
    requires Sound(d.fifo)
    ensures EmittedBy(d, word, n + 1) == Emitted(EmittedBy(d, word, n), word)
  {
  }

  lemma {:induction false} EmittedComposes(d: Dac, word: nat -> u32, a: nat, b: nat)
    requires Sound(d.fifo)
    ensures EmittedBy(d, word, a + b) == EmittedBy(EmittedBy(d, word, a), word, b)
    decreases b
  {
    if b > 0 {
      EmittedComposes(d, word, a, b - 1);
      hide Emitted;
    }
  }

  /** One stereo frame leaves per sample, playing or not, and the FIFO moves as its runs say. */
  lemma {:induction false} OneFramePerSample(d: Dac, word: nat -> u32, n: nat)
    requires Sound(d.fifo)
    ensures |EmittedBy(d, word, n).sink| == |d.sink| + n
    ensures d.sink <= EmittedBy(d, word, n).sink
    ensures EmittedBy(d, word, n).fifo == After(d.fifo, n)
    decreases n
  {
    if n > 0 {
      OneFramePerSample(d, word, n - 1);
      AfterComposes(d.fifo, n - 1, 1);
      var before := EmittedBy(d, word, n - 1);
      assert After(before.fifo, 1) == After(Sampled(before.fifo), 0);
      hide Sampled, SampleOf, Promotes, Starves;
    }
  }

  // ----- samples due

  /** Samples scheduled at next, next + period, ... up to and including `now`. */
  function Due(next: nat, now: nat, period: nat): nat
    requires period > 0
  {
    if now < next then 0 else (now - next) / period + 1
  }

  /** The last one due is not after `now`, and the one after it is. */
  lemma DueBounds(next: nat, now: nat, period: nat)
    requires period > 0
    ensures
      var n := Due(next, now, period);
      now < next + Times(n, period) && (n == 0 || next + Times(n - 1, period) <= now)
  {
    if next <= now {
      var q := (now - next) / period;
      assert now - next == q * period + (now - next) % period;
      assert (q + 1) * period == q * period + period;
    }
  }

  lemma DueIsUnique(next: nat, now: nat, period: nat, n: nat)
    requires period > 0 && now < next + Times(n, period)
    requires n == 0 || next + Times(n - 1, period) <= now
    ensures n == Due(next, now, period)
  {
    if n > 0 {
      assert n * period == (n - 1) * period + period;
      QuotientUnique(now - next, period, n - 1, now - next - (n - 1) * period);
    }
  }

  /** The tick of the n-th sample from `next`, on a 64-bit clock that stops at its largest value. */
  function Scheduled(next: u64, n: nat, period: nat): u64 {
    Min(next + Times(n, period), U64_MAX)
  }

  lemma ScheduleStep(next: u64, n: nat, period: u64, now: u64, at: u64)
    requires 0 < period && at == Scheduled(next, n, period) && at <= now < U64_MAX
    ensures SaturatingAdd(at, period) == Scheduled(next, n + 1, period)
    ensures next + Times(n, period) <= now
    ensures at < SaturatingAdd(at, period)
  {
    TimesAdd(n, 1, period);
  }

  /** The tick the schedule stands at after the samples due by `now`. */
  function NextAfter(next: u64, now: u64, period: nat): u64
    requires period > 0
  {
    Scheduled(next, Due(next, now, period), period)
  }

  /** Samples due by a later tick are those due by an earlier one and those due after it. */
  lemma DueSplits(next: u64, a: u64, b: u64, period: nat)
    requires period > 0 && a <= b < U64_MAX
    ensures Due(next, b, period) == Due(next, a, period) + Due(NextAfter(next, a, period), b, period)
    ensures NextAfter(NextAfter(next, a, period), b, period) == NextAfter(next, b, period)
  {
    var first := Due(next, a, period);
    var mid := NextAfter(next, a, period);
    var second := Due(mid, b, period);
    DueBounds(next, a, period);
    DueBounds(mid, b, period);
    TimesAdd(first, second, period);
    if second > 0 {
      TimesAdd(first, second - 1, period);
    }
    DueIsUnique(next, b, period, first + second) by { hide Due; }
    hide Due, Times;
  }

  // ----- the whole interface as a value

  datatype Ai = Ai(dac: Dac, next: u64, last: u64, videoClock: u32, dacRate: nat, bitRate: nat)

  function Period(a: Ai): u64 {
    PeriodOf(RateOf(a.videoClock, a.dacRate))
  }

  function Anchor(a: Ai): u64 {
    SaturatingAdd(a.last, Period(a))
  }

  function RegisterWrite(a: Ai, index: nat, val: u32): Ai {
    var written := a.(dac := a.dac.(fifo := Written(a.dac.fifo, index, val)));
    if index == 1 && a.dac.fifo.count == 0 then written.(next := Anchor(a))
    else if index == 4 then a.(dacRate := val % 0x4000)
    else if index == 5 then a.(bitRate := val % 0x10)
    else written
  }

  /** Software sets the rate by the 14-bit divider it writes to `AI_DACRATE`. */
  lemma DividerSetsTheRate(a: Ai, val: u32)
    requires a.videoClock > 0
    ensures
      var rate, divisor := RateOf(a.videoClock, RegisterWrite(a, 4, val).dacRate), val % 0x4000 + 1;
      Period(RegisterWrite(a, 4, val)) == PeriodOf(rate) &&
      (divisor == 1 ==> rate == 44_100) &&
      (divisor > 1 ==> Times(rate, divisor) <= a.videoClock < Times(rate + 1, divisor))
  {
    RatesAreExact(a.videoClock, val % 0x4000);
    hide RateOf, PeriodOf, Times;
  }

  function IrqOf(a: Ai, index: nat): AiIrq {
    if index == 1 && a.dac.fifo.count == 0 then Raise
    else if index == 3 then Lower
    else NoEffect
  }

  function Ticked(a: Ai, now: u64, word: nat -> u32): Ai
    requires Sound(a.dac.fifo)
  {
    var period := Period(a);
    if period == 0 then a.(last := now)
    else if a.next == 0 then a.(last := now, next := SaturatingAdd(now, period))
    else
      a.(last := now, next := NextAfter(a.next, now, period),
         dac := EmittedBy(a.dac, word, Due(a.next, now, period)))
  }

  /** Once anchored, stopping at an earlier tick on the way changes nothing. */
  lemma TickSplits(a: Ai, mid: u64, now: u64, word: nat -> u32)
    requires Sound(a.dac.fifo) && a.next != 0 && mid <= now < U64_MAX
    ensures Sound(Ticked(a, mid, word).dac.fifo) && Ticked(a, mid, word).next != 0
    ensures Ticked(Ticked(a, mid, word), now, word) == Ticked(a, now, word)
  {
    var period := Period(a);
    if period > 0 {
      var first := Due(a.next, mid, period);
      var second := Due(NextAfter(a.next, mid, period), now, period);
      DueSplits(a.next, mid, now, period);
      assert NextAfter(a.next, mid, period) != 0 by { DueBounds(a.next, mid, period); }
      hide Due, NextAfter, EmittedBy, PeriodOf, RateOf;
      EmittedComposes(a.dac, word, first, second);
    }
  }

  /** Every tick of a schedule, one after the other. */
  function TickedAll(a: Ai, nows: seq<u64>, word: nat -> u32): Ai
    requires Sound(a.dac.fifo)
    decreases |nows|
  {
    if nows == [] then a
    else TickedAll(Ticked(a, nows[0], word), nows[1..], word)
  }

  predicate Rising(nows: seq<u64>) {
    forall i, j :: 0 <= i <= j < |nows| ==> nows[i] <= nows[j]
  }

  /** Playback depends on where the timeline has got to, never on the steps it got there by. */
  lemma {:induction false} AnySlicingPlaysTheSame(a: Ai, nows: seq<u64>, word: nat -> u32)
    requires Sound(a.dac.fifo) && a.next != 0
    requires nows != [] && Rising(nows) && nows[|nows| - 1] < U64_MAX
    ensures TickedAll(a, nows, word) == Ticked(a, nows[|nows| - 1], word)
    decreases |nows|
  {
    var last := nows[|nows| - 1];
    hide Ticked;
    if |nows| == 1 {
      assert TickedAll(Ticked(a, last, word), nows[1..], word) == Ticked(a, last, word);
    } else {
      TickSplits(a, nows[0], last, word);
      AnySlicingPlaysTheSame(Ticked(a, nows[0], word), nows[1..], word);
    }
  }

  /** What a tick that found samples due hands to the half that reads RDRAM. */
  datatype NeedsBus = NeedsBus(period: u64, now: u64)

  class Audio {
    var dmaAddr: seq<u32>
    var dmaLen: seq<u32>
    var dmaCount: nat
    var addrCarry: nat
    var dmaEnable: bool
    var dacRate: nat
    var bitRate: nat
    var videoClock: u32
    var sampleRate: u32
    var nextSampleTick: u64
    var lastTick: u64
    var dacHold: Stereo
    var underruns: nat
    var sink: seq<Stereo>

    ghost predicate Valid()
      reads this
    {
      |dmaAddr| == 2 && |dmaLen| == 2 && Sound(Slots()) &&
      sampleRate == RateOf(videoClock, dacRate)
    }

    ghost function Slots(): Fifo
      requires |dmaAddr| == 2 && |dmaLen| == 2
      reads this
    {
      Fifo(dmaAddr[0], dmaLen[0], dmaAddr[1], dmaLen[1], dmaCount, addrCarry, dmaEnable)
    }

    /** The DAC, given the interrupts it has raised since some point. */
    ghost function Output(raised: nat): Dac
      requires |dmaAddr| == 2 && |dmaLen| == 2
      reads this
    {
      Dac(Slots(), dacHold, underruns, sink, raised)
    }

    ghost function Value(raised: nat): Ai
      requires |dmaAddr| == 2 && |dmaLen| == 2
      reads this
    {
      Ai(Output(raised), nextSampleTick, lastTick, videoClock, dacRate, bitRate)
    }

    /** Power-on: idle, NTSC, and already running at the default rate. */
    constructor ()
      ensures Valid() && sampleRate == DEFAULT_DAC_HZ
      ensures Slots() == Fifo(0, 0, 0, 0, 0, 0, false)
      ensures nextSampleTick == 0 && lastTick == 0 && sink == []
    {
      dmaAddr, dmaLen, dmaCount, addrCarry, dmaEnable := [0, 0], [0, 0], 0, 0, false;
      dacRate, bitRate, videoClock := 0, 0, VIDEO_CLOCK_NTSC;
      nextSampleTick, lastTick := 0, 0;
      dacHold, underruns, sink := Stereo(0, 0), 0, [];
      sampleRate := 0;
      new;
      RecomputeRate();
    }

    method RecomputeRate()
      modifies this`sampleRate
      ensures sampleRate == RateOf(videoClock, dacRate)
    {
      sampleRate := if videoClock == 0 then 0
        else if dacRate == 0 then DEFAULT_DAC_HZ
        else videoClock / (dacRate + 1);
    }

    method WriteReg(index: nat, val: u32) returns (irq: AiIrq)
      requires Valid()
      modifies this
      ensures Valid()
      ensures Value(0) == RegisterWrite(old(Value(0)), index, val)
      ensures irq == IrqOf(old(Value(0)), index)
    {
      WriteIsSound(Slots(), index, val);
      irq := NoEffect;
      if index == 0 {
        if dmaCount < 2 {
          dmaAddr := dmaAddr[dmaCount := BaseOf(val)];
        }
      } else if index == 1 {
        var length := LengthOf(val);
        if dmaCount < 2 {
          var starting := dmaCount == 0;
          dmaLen := dmaLen[dmaCount := length];
          dmaCount := dmaCount + 1;
          if starting {
            addrCarry := 0;
            var period := PeriodOf(sampleRate);
            nextSampleTick := SaturatingAdd(lastTick, period);
            return Raise;
          }
        }
      } else if index == 2 {
        dmaEnable := val % 2 != 0;
      } else if index == 3 {
        irq := Lower;
      } else if index == 4 {
        dacRate := val % 0x4000;
        RecomputeRate();
      } else if index == 5 {
        bitRate := val % 0x10;
      }
    }

    /** The half of a step that needs no bus; a token says samples are due. */
    method TickWithoutBus(now: u64) returns (proof: Option<NeedsBus>)
      requires Valid()
      modifies this`lastTick, this`nextSampleTick
      ensures Valid() && lastTick == now
      ensures proof.Some? <==> 0 < old(Period(Value(0))) && 0 < old(nextSampleTick) <= now
      ensures proof.Some? ==>
        proof.value == NeedsBus(old(Period(Value(0))), now) && nextSampleTick == old(nextSampleTick)
      ensures proof.None? ==>
        forall word: nat -> u32 :: Value(0) == Ticked(old(Value(0)), now, word)
    {
      lastTick := now;
      if nextSampleTick != 0 && now < nextSampleTick {
        return None;
      }
      var period := PeriodOf(sampleRate);
      if period == 0 {
        return None;
      }
      if nextSampleTick == 0 {
        nextSampleTick := SaturatingAdd(now, period);
        return None;
      }
      return Some(NeedsBus(period, now));
    }

    /** One sample: a word of the front transfer, or a step toward silence. */
    method EmitSample(word: nat -> u32, ghost before: nat) returns (raised: bool)
      requires Valid()
      modifies this`dmaAddr, this`dmaLen, this`dmaCount, this`addrCarry, this`dacHold, this`underruns, this`sink
      ensures Valid() && sink == old(sink) + [dacHold]
      ensures if old(Active(Slots())) then Holds(dacHold, word(ReadAddress(old(Slots()))))
              else FadesTo(old(dacHold), dacHold)
      ensures Output(before + if raised then 1 else 0) == Emitted(old(Output(before)), word)
    {
      ghost var was := Slots();
      SampleIsSound(was);
      FrameHoldsWord(word(ReadAddress(was)));
      FrameFades(dacHold);
      hide Holds, FadesTo, FromWord, Decayed;
      if dmaCount > 0 && dmaLen[0] > 0 && dmaEnable {
        PlayWord(word);
      } else {
        dacHold := Decayed(dacHold);
        sink := sink + [dacHold];
      }
      raised := false;
      if dmaCount > 0 && dmaLen[0] == 0 {
        dmaCount := dmaCount - 1;
        if dmaCount > 0 {
          dmaAddr, dmaLen := dmaAddr[0 := dmaAddr[1]], dmaLen[0 := dmaLen[1]];
          raised := true;
        } else if dmaEnable {
          underruns := underruns + 1;
        }
      }
      hide Carried, ReadAddress, Advanced;
    }

    /** Applies the carry owed, plays the word there, and moves on by one. */
    method PlayWord(word: nat -> u32)
      requires Valid() && Active(Slots())
      modifies this`dmaAddr, this`dmaLen, this`addrCarry, this`dacHold, this`sink
      ensures Valid() && Slots() == Advanced(old(Slots()))
      ensures dacHold == FromWord(word(ReadAddress(old(Slots())))) && sink == old(sink) + [dacHold]
    {
      AdvanceIsSound(Slots());
      CarriedParts(Slots());
      var page := (dmaAddr[0] / PAGE * PAGE + addrCarry * PAGE) % TWO_TO_THE_32;
      WholePages(dmaAddr[0] / PAGE + addrCarry);
      assert page / PAGE * PAGE == page;
      dmaAddr := dmaAddr[0 := page + dmaAddr[0] % PAGE];
      assert dmaAddr[0] == Carried(old(Slots()));
      dacHold := FromWord(word(dmaAddr[0] % ADDRESS_SPACE));
      sink := sink + [dacHold];
      var low := dmaAddr[0] % PAGE + 4;
      addrCarry := if low >= PAGE then 1 else 0;
      dmaAddr := dmaAddr[0 := dmaAddr[0] / PAGE * PAGE + low % PAGE];
      dmaLen := dmaLen[0 := dmaLen[0] - 4];
    }

    /** The half that emits every sample due. */
    method TickWithBus(proof: NeedsBus, word: nat -> u32) returns (raised: nat)
      requires Valid() && 0 < proof.period && proof.now < U64_MAX
      modifies this`dmaAddr, this`dmaLen, this`dmaCount, this`addrCarry, this`dacHold, this`underruns,
        this`sink, this`nextSampleTick
      ensures Valid()
      ensures Output(raised) ==
        EmittedBy(old(Output(0)), word, Due(old(nextSampleTick), proof.now, proof.period))
      ensures nextSampleTick == NextAfter(old(nextSampleTick), proof.now, proof.period)
    {
      raised := 0;
      ghost var n := 0;
      ghost var start, next := Output(0), nextSampleTick;
      var period, now := proof.period, proof.now;
      while nextSampleTick <= now
        invariant Valid() && Sound(start.fifo)
        invariant Output(raised) == EmittedBy(start, word, n)
        invariant nextSampleTick == Scheduled(next, n, period)
        invariant n == 0 || next + Times(n - 1, period) <= now
        decreases U64_MAX - nextSampleTick
      {
        hide *;
        raised := EmitNext(word, period, now, raised, start, next, n);
        n := n + 1;
      }
      assert now < next + Times(n, period);
      hide Times, Due, EmittedBy, Scheduled;
      DueIsUnique(next, now, period, n);
    }

    /** The next sample of a run, the n-th since it stood at `start`, and the schedule moved on. */
    method EmitNext(word: nat -> u32, period: u64, now: u64, raised: nat,
                    ghost start: Dac, ghost next: u64, ghost n: nat) returns (total: nat)
      requires Valid() && 0 < period && nextSampleTick <= now < U64_MAX
      requires Sound(start.fifo) && Output(raised) == EmittedBy(start, word, n)
      requires nextSampleTick == Scheduled(next, n, period)
      modifies this`dmaAddr, this`dmaLen, this`dmaCount, this`addrCarry, this`dacHold, this`underruns,
        this`sink, this`nextSampleTick
      ensures Valid()
      ensures Output(total) == EmittedBy(start, word, n + 1)
      ensures nextSampleTick == Scheduled(next, n + 1, period) && old(nextSampleTick) < nextSampleTick
      ensures next + Times(n, period) <= now
    {
      hide Emitted, EmittedBy, Scheduled, Times, SaturatingAdd, RateOf;
      EmittedOneMore(start, word, n);
      ScheduleStep(next, n, period, now, nextSampleTick);
      var promoted := EmitSample(word, raised);
      total := raised + if promoted then 1 else 0;
      nextSampleTick := SaturatingAdd(nextSampleTick, period);
    }

    /** A step to `now`: exactly the tick of the value, interrupts included. */
    method Tick(now: u64, word: nat -> u32) returns (raised: nat)
      requires Valid() && now < U64_MAX
      modifies this
      ensures Valid()
      ensures Value(raised) == Ticked(old(Value(0)), now, word)
    {
      raised := 0;
      var proof := TickWithoutBus(now);
      if proof.Some? {
        raised := TickWithBus(proof.value, word);
      }
    }
  }
}
