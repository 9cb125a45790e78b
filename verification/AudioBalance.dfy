/** The books of the audio FIFO kept on the device itself, over register writes and ticks. */
module AudioBalance {
  import opened MachineWords
  import opened AudioFifo
  import opened AudioPlayback
  import opened AudioLedger
  import opened AudioInterface

  /** A register write, or a step of the timeline over what memory then holds. */
  datatype Command = WriteReg(index: nat, val: u32) | TickTo(now: u64, word: nat -> u32)

  /** The device beside the bytes and transfers it accepted and the addresses it read. */
  datatype Tally = Tally(ai: Ai, queued: nat, transfers: nat, read: seq<nat>)

  // ----- a tick as samples

  function Samples(n: nat): (actions: seq<Action>)
    ensures |actions| == n && forall i :: 0 <= i < n ==> actions[i] == Sample
  {
    seq(n, _ => Sample)
  }

  function Books(t: Tally): Ledger {
    Ledger(t.ai.dac.fifo, t.queued, |t.read|, t.transfers, t.ai.dac.raised)
  }

  /** What n samples make of the books: words played are addresses read, interrupts are the DAC's. */
  function SampledBooks(l: Ledger, d: Dac, word: nat -> u32, n: nat): Ledger
    requires Sound(d.fifo)
  {
    var e := EmittedBy(d, word, n);
    Ledger(e.fifo, l.enqueued, l.played + |Reads(d.fifo, n)|, l.transfers, e.raised)
  }

  lemma {:induction false} EmitsAsLedgered(l: Ledger, d: Dac, word: nat -> u32, n: nat)
    requires Balanced(l) && d.fifo == l.fifo && d.raised == l.raised
    ensures SampledBooks(l, d, word, n) == Run(l, Samples(n))
    decreases n
  {
    if n > 0 {
      SampleIsSound(d.fifo);
      StepBalances(l, Sample);
      EmittedComposes(d, word, 1, n - 1);
      assert EmittedBy(d, word, 1) == Emitted(EmittedBy(d, word, 0), word);
      assert Samples(n)[0] == Sample && Samples(n)[1..] == Samples(n - 1);
      hide Sampled, Promotes, Active, Balanced, EmittedBy;
      EmitsAsLedgered(Step(l, Sample), Emitted(d, word), word, n - 1);
    }
  }

  // ----- runs of commands

  /** Samples a tick finds due. */
  function SamplesDue(a: Ai, now: u64): nat {
    if Period(a) == 0 || a.next == 0 then 0 else Due(a.next, now, Period(a))
  }

  /** A command's effect, its interrupt counted. */
  function Commanded(a: Ai, c: Command): (b: Ai)
    requires Sound(a.dac.fifo)
    ensures Sound(b.dac.fifo)
  {
    match c
    case WriteReg(index, val) =>
      WriteIsSound(a.dac.fifo, index, val);
      var b := RegisterWrite(a, index, val);
      b.(dac := b.dac.(raised := a.dac.raised + if IrqOf(a, index) == Raise then 1 else 0))
    case TickTo(now, word) => Ticked(a, now, word)
  }

  /** What a command is to the FIFO. */
  function ActionsOf(a: Ai, c: Command): seq<Action> {
    match c
    case WriteReg(index, val) => [Write(index, val)]
    case TickTo(now, _) => Samples(SamplesDue(a, now))
  }

  function Then(t: Tally, c: Command): (u: Tally)
    requires Sound(t.ai.dac.fifo)
    ensures Sound(u.ai.dac.fifo)
  {
    var f := t.ai.dac.fifo;
    match c
    case WriteReg(index, val) =>
      if index == 1 && f.count < 2 then
        Tally(Commanded(t.ai, c), t.queued + LengthOf(val), t.transfers + 1, t.read)
      else t.(ai := Commanded(t.ai, c))
    case TickTo(now, _) =>
      t.(ai := Commanded(t.ai, c), read := t.read + Reads(f, SamplesDue(t.ai, now)))
  }

  function Ran(t: Tally, commands: seq<Command>): (u: Tally)
    requires Sound(t.ai.dac.fifo)
    ensures Sound(u.ai.dac.fifo)
    decreases |commands|
  {
    if |commands| == 0 then t else Ran(Then(t, commands[0]), commands[1..])
  }

  /** All that the commands are to the FIFO, in order. */
  function Actions(a: Ai, commands: seq<Command>): seq<Action>
    requires Sound(a.dac.fifo)
    decreases |commands|
  {
    if |commands| == 0 then []
    else ActionsOf(a, commands[0]) + Actions(Commanded(a, commands[0]), commands[1..])
  }

  /** One command moves the device's books as the ledger moves. */
  lemma CommandIsLedgered(t: Tally, c: Command)
    requires Balanced(Books(t))
    ensures Books(Then(t, c)) == Run(Books(t), ActionsOf(t.ai, c))
    ensures Then(t, c).ai == Commanded(t.ai, c)
  {
    match c {
      case WriteReg(index, val) =>
        var written := [Action.Write(index, val)];
        StepBalances(Books(t), written[0]);
        assert Run(Books(t), written) == Run(Step(Books(t), written[0]), written[1..]);
      case TickTo(now, word) =>
        var n := SamplesDue(t.ai, now);
        EmitsAsLedgered(Books(t), t.ai.dac, word, n);
        hide Run, Emitted, Sampled, Active, Due, NextAfter;
    }
  }

  lemma {:induction false} RunAppends(l: Ledger, first: seq<Action>, rest: seq<Action>)
    requires Balanced(l)
    ensures Balanced(Run(l, first))
    ensures Run(l, first + rest) == Run(Run(l, first), rest)
    decreases |first|
  {
    LedgerBalances(l, first);
    if first == [] {
      assert first + rest == rest;
    } else {
      StepBalances(l, first[0]);
      assert (first + rest)[1..] == first[1..] + rest;
      RunAppends(Step(l, first[0]), first[1..], rest);
      hide Step, Balanced;
    }
  }

  /** The device's totals are the ledger's over the same writes and the samples the ticks found due. */
  lemma {:induction false} DeviceFollowsLedger(t: Tally, commands: seq<Command>)
    requires Balanced(Books(t))
    ensures Books(Ran(t, commands)) == Run(Books(t), Actions(t.ai, commands))
    decreases |commands|
  {
    if |commands| > 0 {
      var c := commands[0];
      CommandIsLedgered(t, c);
      RunAppends(Books(t), ActionsOf(t.ai, c), Actions(Commanded(t.ai, c), commands[1..]));
      hide Balanced, Then, Commanded, ActionsOf, Run;
      DeviceFollowsLedger(Then(t, c), commands[1..]);
    }
  }

  /** Over every interleaving of register writes and ticks, each byte accepted has been read or is
      still held, each transfer accepted has raised its interrupt or waits behind another, and the
      totals say how full the queue is. */
  lemma DeviceBalances(t: Tally, commands: seq<Command>)
    requires Balanced(Books(t))
    ensures
      var end := Ran(t, commands);
      var f := end.ai.dac.fifo;
      4 * |end.read| + Remaining(f) == end.queued &&
      end.ai.dac.raised + Waiting(f) == end.transfers &&
      (f.count == 0 ==> 4 * |end.read| == end.queued) &&
      (f.count == 2 <==> end.transfers == end.ai.dac.raised + 1)
  {
    DeviceFollowsLedger(t, commands);
    LedgerBalances(Books(t), Actions(t.ai, commands));
    TotalsDecideTheQueue(Books(t), Actions(t.ai, commands));
    hide Ran, Run, Actions;
  }

  // ----- on the device

  function Since(a: Ai, raised: nat): Ai {
    a.(dac := a.dac.(raised := a.dac.raised + raised))
  }

  /** Interrupts raised before only add up. */
  lemma {:induction false} EmitsOnTop(d: Dac, raised: nat, word: nat -> u32, n: nat)
    requires Sound(d.fifo)
    ensures
      var e := EmittedBy(d, word, n);
      EmittedBy(d.(raised := d.raised + raised), word, n) == e.(raised := e.raised + raised)
    decreases n
  {
    if n > 0 {
      EmitsOnTop(d, raised, word, n - 1);
      hide Sampled, SampleOf, Promotes, Starves;
    }
  }

  lemma CommandsOnTop(a: Ai, raised: nat, c: Command)
    requires Sound(a.dac.fifo)
    ensures Commanded(Since(a, raised), c) == Since(Commanded(a, c), raised)
  {
    if c.TickTo? {
      EmitsOnTop(a.dac, raised, c.word, SamplesDue(a, c.now));
      hide EmittedBy, Due, NextAfter;
    }
  }

  lemma {:induction false} RanOneMore(t: Tally, commands: seq<Command>, c: Command)
    requires Sound(t.ai.dac.fifo)
    ensures Ran(t, commands + [c]) == Then(Ran(t, commands), c)
    decreases |commands|
  {
    hide Then;
    if |commands| == 0 {
      assert Ran(Then(t, c), [c][1..]) == Then(t, c);
      assert commands + [c] == [c];
    } else {
      assert (commands + [c])[1..] == commands[1..] + [c];
      RanOneMore(Then(t, commands[0]), commands[1..], c);
    }
  }

  /** Drives the device and counts the interrupts its writes and ticks raise. */
  method Drive(audio: Audio, commands: seq<Command>) returns (raised: nat)
    requires audio.Valid() && forall i :: 0 <= i < |commands| && commands[i].TickTo? ==> commands[i].now < U64_MAX
    modifies audio
    ensures audio.Valid()
    ensures audio.Value(raised) == Ran(Tally(old(audio.Value(0)), 0, 0, []), commands).ai
  {
    raised := 0;
    ghost var start := Tally(audio.Value(0), 0, 0, []);
    for i := 0 to |commands|
      invariant audio.Valid()
      invariant audio.Value(raised) == Ran(start, commands[..i]).ai
    {
      hide Ran, RegisterWrite, Ticked, Sound;
      assert commands[..i + 1] == commands[..i] + [commands[i]];
      RanOneMore(start, commands[..i], commands[i]);
      CommandsOnTop(audio.Value(0), raised, commands[i]);
      match commands[i] {
        case WriteReg(index, val) =>
          var irq := audio.WriteReg(index, val);
          raised := raised + if irq == Raise then 1 else 0;
        case TickTo(now, word) =>
          var more := audio.Tick(now, word);
          raised := raised + more;
      }
    }
    assert commands[..|commands|] == commands;
  }
}
