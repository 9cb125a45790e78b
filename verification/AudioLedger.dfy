/** Conservation and progress of the audio FIFO over every interleaving of register writes and
    output samples. */
module AudioLedger {
  import opened MachineWords
  import opened AudioFifo
  import opened AudioPlayback

  datatype Action = Write(index: nat, val: u32) | Sample

  /** The FIFO beside what has gone in and come out of it. */
  datatype Ledger = Ledger(fifo: Fifo, enqueued: nat, played: nat, transfers: nat, raised: nat)

  /** The write queues a transfer. */
  predicate Accepts(f: Fifo, action: Action) {
    action.Write? && action.index == 1 && f.count < 2
  }

  function Step(l: Ledger, action: Action): Ledger
    requires Sound(l.fifo)
  {
    match action
    case Write(index, val) =>
      var next := l.(fifo := Written(l.fifo, index, val));
      if !Accepts(l.fifo, action) then next
      else next.(enqueued := l.enqueued + LengthOf(val), transfers := l.transfers + 1,
                 raised := l.raised + if l.fifo.count == 0 then 1 else 0)
    case Sample =>
      l.(fifo := Sampled(l.fifo),
         played := l.played + (if Active(l.fifo) then 1 else 0),
         raised := l.raised + if Promotes(l.fifo) then 1 else 0)
  }

  /** Bytes the live slots still hold. */
  function Remaining(f: Fifo): nat {
    (if f.count > 0 then f.len0 else 0) + if f.count > 1 then f.len1 else 0
  }

  function Waiting(f: Fifo): nat {
    if f.count > 1 then 1 else 0
  }

  /** Every byte queued was played or is still waiting to be, and every transfer queued has raised
      its interrupt except the one that has not started. */
  ghost predicate Balanced(l: Ledger) {
    Sound(l.fifo) &&
    4 * l.played + Remaining(l.fifo) == l.enqueued &&
    l.raised + Waiting(l.fifo) == l.transfers
  }

  lemma StepBalances(l: Ledger, action: Action)
    requires Balanced(l)
    ensures Balanced(Step(l, action))
  {
    hide Carried, BaseOf, LengthOf;
    match action
    case Write(index, val) => WriteIsSound(l.fifo, index, val);
    case Sample => SampleIsSound(l.fifo);
  }

  function Run(l: Ledger, actions: seq<Action>): Ledger
    requires Balanced(l)
    decreases |actions|
  {
    if actions == [] then l
    else
      StepBalances(l, actions[0]);
      Run(Step(l, actions[0]), actions[1..])
  }

  /** The books stay balanced over every interleaving of writes and samples. */
  lemma {:induction false} LedgerBalances(l: Ledger, actions: seq<Action>)
    requires Balanced(l)
    ensures Balanced(Run(l, actions))
    decreases |actions|
  {
    if actions != [] {
      StepBalances(l, actions[0]);
      LedgerBalances(Step(l, actions[0]), actions[1..]);
    }
  }

  /** Nothing queued, nothing played. */
  function PowerOn(): (l: Ledger)
    ensures Balanced(l)
  {
    Ledger(Fifo(0, 0, 0, 0, 0, 0, false), 0, 0, 0, 0)
  }

  /** The totals alone say how full the queue is: never more played than queued, and never more
      than one transfer whose interrupt is still to come. */
  lemma TotalsDecideTheQueue(start: Ledger, actions: seq<Action>)
    requires Balanced(start)
    ensures
      var end := Run(start, actions);
      4 * end.played <= end.enqueued && end.raised <= end.transfers <= end.raised + 1 &&
      (end.fifo.count == 0 ==> 4 * end.played == end.enqueued) &&
      (end.fifo.count == 2 <==> end.transfers == end.raised + 1)
  {
    LedgerBalances(start, actions);
    hide Run;
  }

  // ----- progress

  /** Samples the front transfer takes to leave the queue. */
  function Lifetime(f: Fifo): nat {
    Max(1, f.len0 / 4)
  }

  /** The front transfer can leave: it has nothing to play, or the DMA is on to play it. */
  predicate CanDrain(f: Fifo) {
    f.len0 == 0 || f.enabled
  }

  /** While it can drain, the front transfer is retired by exactly its last sample and by none
      before it, so a full queue always frees a slot. */
  lemma FrontRetires(f: Fifo, n: nat)
    requires Sound(f) && f.count > 0 && CanDrain(f)
    requires n <= Lifetime(f)
    ensures After(f, n).count == if n < Lifetime(f) then f.count else f.count - 1
  {
    if n == 0 {
    } else if f.len0 == 0 {
      assert !Active(f);
      SampleIsSound(f);
      assert After(f, 1) == After(Sampled(f), 0);
    } else if n < Lifetime(f) {
      TransferMovesOn(f, n);
    } else {
      TransferPlaysThrough(f);
    }
  }

  lemma {:induction false} Stalls(f: Fifo, n: nat)
    requires Sound(f) && f.count > 0 && !CanDrain(f)
    ensures After(f, n) == f
    decreases n
  {
    if n > 0 {
      Stalls(f, n - 1);
    }
  }

  /** A slot is freed by samples alone exactly when the front transfer can drain. */
  lemma RetiresIffCanDrain(f: Fifo)
    requires Sound(f) && f.count > 0
    ensures (exists n: nat :: After(f, n).count < f.count) <==> CanDrain(f)
  {
    if CanDrain(f) {
      FrontRetires(f, Lifetime(f));
      assert After(f, Lifetime(f)).count < f.count;
    } else {
      forall n: nat
        ensures After(f, n) == f
      {
        Stalls(f, n);
      }
    }
  }
}
