/** What is heard: the frames a transfer sends out are the words it was queued with. */
module AudioFrames {
  import opened MachineWords
  import opened AudioFifo
  import opened AudioPlayback
  import opened AudioInterface

  lemma {:induction false} AtMostOneReadEach(f: Fifo, n: nat)
    requires Sound(f)
    ensures |Reads(f, n)| <= n
    decreases n
  {
    if n > 0 {
      SampleIsSound(f);
      AtMostOneReadEach(Sampled(f), n - 1);
    }
  }

  /** While every sample plays, the i-th address read is the one the i-th sample reads. */
  lemma {:induction false} ReadsInTurn(f: Fifo, n: nat, i: nat)
    requires Sound(f) && i < n && |Reads(f, n)| == n
    ensures Active(After(f, i)) && Reads(f, n)[i] == ReadAddress(After(f, i))
    decreases n
  {
    SampleIsSound(f);
    AtMostOneReadEach(Sampled(f), n - 1);
    hide Sampled, ReadAddress;
    if i > 0 {
      ReadsInTurn(Sampled(f), n - 1, i - 1);
    }
  }

  lemma FrameIsHeld(d: Dac, word: nat -> u32, n: nat)
    requires Sound(d.fifo)
    ensures EmittedBy(d, word, n + 1).sink == EmittedBy(d, word, n).sink + [EmittedBy(d, word, n + 1).hold]
  {
    EmittedOneMore(d, word, n);
    hide EmittedBy, Sampled, SampleOf, Starves, Promotes;
  }

  /** The i-th frame is what the DAC held after that sample. */
  lemma {:induction false} FramesAreHeld(d: Dac, word: nat -> u32, n: nat, i: nat)
    requires Sound(d.fifo) && i < n
    ensures |EmittedBy(d, word, n).sink| == |d.sink| + n
    ensures EmittedBy(d, word, n).sink[|d.sink| + i] == EmittedBy(d, word, i + 1).hold
    decreases n
  {
    hide EmittedBy, Sound;
    OneFramePerSample(d, word, n);
    OneFramePerSample(d, word, n - 1);
    FrameIsHeld(d, word, n - 1);
    if i < n - 1 {
      FramesAreHeld(d, word, n - 1, i);
    }
  }

  /** A sample that plays holds the word it reads. */
  lemma HeldIsWord(d: Dac, word: nat -> u32, i: nat)
    requires Sound(d.fifo) && Active(After(d.fifo, i))
    ensures Holds(EmittedBy(d, word, i + 1).hold, word(ReadAddress(After(d.fifo, i))))
  {
    OneFramePerSample(d, word, i);
    EmittedOneMore(d, word, i);
    FrameHoldsWord(word(ReadAddress(After(d.fifo, i))));
    hide EmittedBy, After, Sampled, Starves, Promotes, ReadAddress, Holds, FromWord;
  }

  /** A whole transfer is heard as its words in order: frame i is the word at position + 4 i, on the
      24-bit bus, left channel high. */
  lemma TransferIsHeard(d: Dac, word: nat -> u32, i: nat)
    requires Playing(d.fifo) && i < d.fifo.len0 / 4
    ensures
      var sink := EmittedBy(d, word, d.fifo.len0 / 4).sink;
      |sink| == |d.sink| + d.fifo.len0 / 4 &&
      Holds(sink[|d.sink| + i], word((Position(d.fifo) + 4 * i) % 0x100_0000))
  {
    var n := d.fifo.len0 / 4;
    hide Position, Holds, EmittedBy, After, ReadAddress;
    TransferPlaysThrough(d.fifo);
    assert Reads(d.fifo, n)[i] == (Position(d.fifo) + 4 * i) % 0x100_0000;
    hide Reads, Words;
    ReadsInTurn(d.fifo, n, i);
    HeldIsWord(d, word, i);
    FramesAreHeld(d, word, n, i);
  }

  /** From the register writes to the ear: with the DMA switched on and a block queued on an idle
      device, the block the registers name, to the eight bytes, is what comes out. */
  lemma WrittenBlockIsHeard(d: Dac, enable: u32, base: u32, length: u32, word: nat -> u32, i: nat)
    requires Sound(d.fifo) && d.fifo.count == 0 && enable % 2 == 1
    requires i < length % 0x4_0000 / 8 * 2
    ensures
      var f := Written(Written(Written(d.fifo, 2, enable), 0, base), 1, length);
      var n := length % 0x4_0000 / 8 * 2;
      Sound(f) &&
      var sink := EmittedBy(d.(fifo := f), word, n).sink;
      |sink| == |d.sink| + n &&
      Holds(sink[|d.sink| + i], word((base % 0x100_0000 / 8 * 8 + 4 * i) % 0x100_0000))
  {
    QuotientUnique(LengthOf(length), 4, length % 0x4_0000 / 8 * 2, 0);
    WriteIsSound(d.fifo, 2, enable);
    StartsAtBase(Written(d.fifo, 2, enable), base, length);
    var f := Queue(Written(d.fifo, 2, enable), base, length);
    assert BaseOf(base) == base % 0x100_0000 / 8 * 8;
    hide Position, Holds, EmittedBy, BaseOf, LengthOf;
    TransferIsHeard(d.(fifo := f), word, i);
  }

  /** An underrun is counted when an enabled device plays out its only transfer, and never else. */
  lemma UnderrunsCountDryQueues(d: Dac, word: nat -> u32)
    requires Sound(d.fifo)
    ensures
      var e := Emitted(d, word);
      e.underruns == d.underruns +
        if d.fifo.enabled && d.fifo.count == 1 && e.fifo.count == 0 then 1 else 0
  {
    hide Carried, InPage, SampleOf;
  }

  // ----- when it is heard

  /** The first tick of an unanchored schedule only starts the clock, and queuing on an idle device
      starts it over from the last tick: either way a sample falls due with every whole period from
      there. */
  lemma AnchorsCountPeriods(a: Ai, start: u64, later: u64, length: u32, word: nat -> u32)
    requires Sound(a.dac.fifo) && 0 < Period(a) && start <= later && start + Period(a) <= U64_MAX
    ensures a.next == 0 ==>
      Ticked(a, start, word).dac == a.dac &&
      SamplesBy(Ticked(a, start, word), later) == (later - start) / Period(a)
    ensures a.last == start && a.dac.fifo.count == 0 ==>
      SamplesBy(RegisterWrite(a, 1, length), later) == (later - start) / Period(a)
  {
    var period, gap := Period(a), later - start;
    if gap < period {
      QuotientUnique(gap, period, 0, gap);
    } else {
      var q := (gap - period) / period;
      assert gap - period == q * period + (gap - period) % period;
      assert (q + 1) * period == q * period + period;
      QuotientUnique(gap, period, q + 1, (gap - period) % period);
    }
    hide PeriodOf, RateOf, Written, EmittedBy;
  }

  /** Samples due by `later` on an anchored schedule. */
  function SamplesBy(a: Ai, later: u64): nat
    requires 0 < Period(a)
  {
    Due(a.next, later, Period(a))
  }
}
