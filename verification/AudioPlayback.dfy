/** Whole runs of samples: which words a transfer reads, and which a chain of transfers does. */
module AudioPlayback {
  import opened MachineWords
  import opened AudioFifo

  // ----- runs of samples

  function After(f: Fifo, n: nat): (g: Fifo)
    requires Sound(f)
    ensures Sound(g)
    decreases n
  {
    if n == 0 then f
    else
      SampleIsSound(f);
      After(Sampled(f), n - 1)
  }

  /** The addresses n samples read, in order; a sample with nothing to play reads none. */
  function Reads(f: Fifo, n: nat): seq<nat>
    requires Sound(f)
    decreases n
  {
    if n == 0 then []
    else
      SampleIsSound(f);
      (if Active(f) then [ReadAddress(f)] else []) + Reads(Sampled(f), n - 1)
  }

  /** n consecutive words from `start`, on the 24-bit bus. */
  function Words(start: nat, n: nat): (w: seq<nat>)
    ensures |w| == n
  {
    seq(n, i requires 0 <= i < n => (start + 4 * i) % ADDRESS_SPACE)
  }

  lemma OffsetsAdd(start: nat, a: nat, b: nat)
    ensures ((start + a) % ADDRESS_SPACE + b) % ADDRESS_SPACE == (start + a + b) % ADDRESS_SPACE
  {
  }

  lemma WordsStep(start: nat, n: nat)
    requires n > 0 && start < ADDRESS_SPACE
    ensures Words(start, n) == [start] + Words((start + 4) % ADDRESS_SPACE, n - 1)
  {
    forall i | 0 <= i < n
      ensures Words(start, n)[i] == ([start] + Words((start + 4) % ADDRESS_SPACE, n - 1))[i]
    {
      if i > 0 {
        OffsetsAdd(start, 4, 4 * (i - 1));
      }
    }
  }

  lemma WordsSplit(start: nat, a: nat, b: nat)
    ensures Words(start, a + b) == Words(start, a) + Words((start + 4 * a) % ADDRESS_SPACE, b)
  {
    var whole, parts := Words(start, a + b), Words(start, a) + Words((start + 4 * a) % ADDRESS_SPACE, b);
    forall i | 0 <= i < |whole|
      ensures whole[i] == parts[i]
    {
      if i >= a {
        OffsetsAdd(start, 4 * a, 4 * (i - a));
      }
    }
  }

  // ----- one transfer

  /** A transfer is being played. */
  predicate Playing(f: Fifo) {
    Sound(f) && Active(f)
  }

  /** Short of its end, a run of samples moves the position on by its words and leaves the rest
      alone ... */
  lemma {:induction false} TransferMovesOn(f: Fifo, n: nat)
    requires Playing(f) && 4 * n < f.len0
    ensures
      var g := After(f, n);
      Playing(g) && Position(g) == (Position(f) + 4 * n) % ADDRESS_SPACE && g.len0 == f.len0 - 4 * n &&
      g.count == f.count && g.enabled && g.addr1 == f.addr1 && g.len1 == f.len1
    decreases n
  {
    PositionInSpace(f);
    if n > 0 {
      InnerWord(f);
      var next := Sampled(f);
      hide Sampled, Position, Playing, Sound, Active, Reads, Words;
      TransferMovesOn(next, n - 1);
      OffsetsAdd(Position(f), 4, 4 * (n - 1));
    }
  }

  /** ... and reads the next words in line. */
  lemma {:induction false} TransferIsLinear(f: Fifo, n: nat)
    requires Playing(f) && 4 * n < f.len0
    ensures Reads(f, n) == Words(Position(f), n)
    decreases n
  {
    PositionInSpace(f);
    if n > 0 {
      InnerWord(f);
      assert Active(f);
      var next := Sampled(f);
      hide Sampled, Position, Playing, Sound, Active, ReadAddress, After, Words;
      TransferIsLinear(next, n - 1);
      WordsStep(Position(f), n);
    }
  }

  lemma PositionInSpace(f: Fifo)
    ensures Position(f) < ADDRESS_SPACE
  {
  }

  /** A word that is not the transfer's last. */
  lemma InnerWord(f: Fifo)
    requires Playing(f) && f.len0 > 4
    ensures
      var g := Sampled(f);
      Playing(g) && Position(g) == (Position(f) + 4) % ADDRESS_SPACE && g.len0 == f.len0 - 4 &&
      g.count == f.count && g.addr1 == f.addr1 && g.len1 == f.len1
    ensures ReadAddress(f) == Position(f)
  {
    AdvanceIsLinear(f);
    SampleIsSound(f);
    hide ReadAddress, Position, Carried;
  }

  lemma {:induction false} AfterComposes(f: Fifo, a: nat, b: nat)
    requires Sound(f)
    ensures After(f, a + b) == After(After(f, a), b)
    ensures Reads(f, a + b) == Reads(f, a) + Reads(After(f, a), b)
    decreases a
  {
    if a > 0 {
      SampleIsSound(f);
      AfterComposes(Sampled(f), a - 1, b);
    }
  }

  /** A whole transfer reads exactly its own words, then hands over: the next slot moves up as it
      stands, and a carry is owed exactly when the transfer ended on a page boundary. */
  lemma TransferPlaysThrough(f: Fifo)
    requires Playing(f)
    ensures Reads(f, f.len0 / 4) == Words(Position(f), f.len0 / 4)
    ensures
      var g := After(f, f.len0 / 4);
      g.count == f.count - 1 && g.enabled &&
      (f.count == 2 ==> g.addr0 == f.addr1 && g.len0 == f.len1) &&
      (g.carry == 1 <==> (Position(f) + f.len0) % PAGE == 0)
  {
    var n := f.len0 / 4 - 1;
    assert Sound(f) && f.len0 % 4 == 0;
    hide *;
    TransferIsLinear(f, n);
    TransferMovesOn(f, n);
    AfterComposes(f, n, 1);
    LastWord(After(f, n));
    WordsSplit(Position(f), n, 1);
    PageOfSum(Position(f), 4 * n, 4);
  }

  lemma PageOfSum(start: nat, a: nat, b: nat)
    ensures ((start + a) % ADDRESS_SPACE + b) % PAGE == (start + a + b) % PAGE
  {
  }

  lemma LastWord(f: Fifo)
    requires Playing(f) && f.len0 == 4
    ensures Reads(f, 1) == Words(Position(f), 1)
    ensures
      var g := After(f, 1);
      g.count == f.count - 1 && g.enabled &&
      (f.count == 2 ==> g.addr0 == f.addr1 && g.len0 == f.len1) &&
      (g.carry == 1 <==> (Position(f) + 4) % PAGE == 0)
  {
    SampleIsSound(f);
    LastSample(f);
    PositionInSpace(f);
    assert After(f, 1) == After(Sampled(f), 0) == Sampled(f);
    assert Reads(f, 1) == [Position(f)] + Reads(Sampled(f), 0);
    hide ReadAddress, Position, Sampled;
  }

  lemma LastSample(f: Fifo)
    requires Playing(f) && f.len0 == 4
    ensures ReadAddress(f) == Position(f)
    ensures
      var g := Sampled(f);
      g.count == f.count - 1 && g.enabled &&
      (f.count == 2 ==> g.addr0 == f.addr1 && g.len0 == f.len1) &&
      (g.carry == 1 <==> (Position(f) + 4) % PAGE == 0)
  {
    AdvanceIsLinear(f);
    hide ReadAddress, Carried, Position;
  }

  // ----- chains of transfers

  /** `AI_DRAM_ADDR` and `AI_LENGTH` are written once `after` samples of the transfer in progress
      have been played. */
  datatype Queueing = Queueing(after: nat, base: u32, length: u32)

  /** The two writes that queue a transfer. */
  function Queue(f: Fifo, base: u32, length: u32): Fifo {
    Written(Written(f, 0, base), 1, length)
  }

  /** Every transfer is non-empty and is queued while its predecessor still has words to play. */
  predicate BackToBack(length: nat, chain: seq<Queueing>)
    decreases |chain|
  {
    length > 0 &&
    (chain == [] ||
     (4 * chain[0].after < length && BackToBack(LengthOf(chain[0].length), chain[1..])))
  }

  lemma BackToBackNext(length: nat, chain: seq<Queueing>)
    requires chain != [] && BackToBack(length, chain)
    ensures LengthOf(chain[0].length) > 0
  {
    assert BackToBack(LengthOf(chain[0].length), chain[1..]);
  }

  /** What the hardware is documented to read: every transfer its own words, the successor of one
      that ends on a page boundary from one page too far. */
  function ChainWords(start: nat, length: nat, chain: seq<Queueing>): seq<nat>
    decreases |chain|
  {
    Words(start, length / 4) +
    if chain == [] then []
    else
      var skew := if (start + length) % PAGE == 0 then PAGE else 0;
      ChainWords((BaseOf(chain[0].base) + skew) % ADDRESS_SPACE, LengthOf(chain[0].length), chain[1..])
  }

  /** What the FIFO reads when the chain is queued as scheduled and everything is played out. */
  function ChainReads(f: Fifo, chain: seq<Queueing>): seq<nat>
    requires Playing(f) && f.count == 1 && BackToBack(f.len0, chain)
    decreases |chain|
  {
    if chain == [] then Reads(f, f.len0 / 4)
    else
      BackToBackNext(f.len0, chain);
      HandsOver(f, chain[0]);
      var g := Queued(f, chain[0]);
      var rest := f.len0 / 4 - chain[0].after;
      Reads(f, chain[0].after) + Reads(g, rest) + ChainReads(After(g, rest), chain[1..])
  }

  /** The FIFO just after a transfer was queued behind the one playing. */
  function Queued(f: Fifo, next: Queueing): Fifo
    requires Sound(f)
  {
    Queue(After(f, next.after), next.base, next.length)
  }

  lemma QueueBehind(f: Fifo, base: u32, length: u32)
    requires Sound(f) && f.count == 1
    ensures Sound(Queue(f, base, length))
    ensures Queue(f, base, length) == f.(addr1 := BaseOf(base), len1 := LengthOf(length), count := 2)
  {
    WriteIsSound(f, 0, base);
    WriteIsSound(Written(f, 0, base), 1, length);
    hide BaseOf, LengthOf;
  }

  /** Playing out the front transfer leaves its successor playing alone, from its own base plus the
      page its predecessor may have left owing. */
  lemma HandsOver(f: Fifo, next: Queueing)
    requires Playing(f) && f.count == 1 && 4 * next.after < f.len0 && LengthOf(next.length) > 0
    ensures
      var g := Queued(f, next);
      var rest := f.len0 / 4 - next.after;
      Sound(g) && Playing(After(g, rest)) && After(g, rest).count == 1 &&
      After(g, rest).len0 == LengthOf(next.length) &&
      Position(After(g, rest)) ==
        (BaseOf(next.base) + if (Position(f) + f.len0) % PAGE == 0 then PAGE else 0) % ADDRESS_SPACE &&
      Reads(f, next.after) + Reads(g, rest) == Words(Position(f), f.len0 / 4)
  {
    hide After, Reads, Words, Queue, LengthOf, BaseOf;
    TransferIsLinear(f, next.after);
    TransferMovesOn(f, next.after);
    var part := After(f, next.after);
    QueueBehind(part, next.base, next.length);
    var g := Queued(f, next);
    assert Position(g) == Position(part);
    hide Position;
    TransferPlaysThrough(g);
    var rest := f.len0 / 4 - next.after;
    assert g.len0 / 4 == rest;
    WordsSplit(Position(f), next.after, rest);
    var h := After(g, rest);
    PageOfSum(Position(f), 4 * next.after, g.len0);
    OwedPage(h, BaseOf(next.base));
  }

  lemma OwedPage(f: Fifo, base: u32)
    requires f.carry <= 1 && f.addr0 == base
    ensures Position(f) == (base + if f.carry == 1 then PAGE else 0) % ADDRESS_SPACE
  {
    var page, low := base / PAGE, base % PAGE;
    AtIsAddress(page + f.carry, low);
    assert base + f.carry * PAGE == (page + f.carry) * PAGE + low;
  }

  /** Every chain of back-to-back transfers reads exactly the documented words: linear inside a
      transfer, and a whole page off after one that ended on a page boundary. */
  lemma {:induction false} ChainReadsAsDocumented(f: Fifo, chain: seq<Queueing>)
    requires Playing(f) && f.count == 1 && BackToBack(f.len0, chain)
    ensures ChainReads(f, chain) == ChainWords(Position(f), f.len0, chain)
    decreases |chain|
  {
    hide After, Reads, Words, Queued, Position, LengthOf, BaseOf;
    if chain == [] {
      TransferPlaysThrough(f);
    } else {
      BackToBackNext(f.len0, chain);
      HandsOver(f, chain[0]);
      ChainReadsAsDocumented(After(Queued(f, chain[0]), f.len0 / 4 - chain[0].after), chain[1..]);
    }
  }

  /** A transfer written to an idle queue starts at its own base. */
  lemma StartsAtBase(f: Fifo, base: u32, length: u32)
    requires Sound(f) && f.count == 0 && f.enabled && LengthOf(length) > 0
    ensures
      var g := Queue(f, base, length);
      Playing(g) && g.count == 1 && g.len0 == LengthOf(length) && Position(g) == BaseOf(base)
  {
    WriteIsSound(f, 0, base);
    WriteIsSound(Written(f, 0, base), 1, length);
    assert BaseOf(base) < ADDRESS_SPACE;
    hide BaseOf, LengthOf, Position;
    OwedPage(Queue(f, base, length), BaseOf(base));
  }

  /** A chain begun on an idle queue owes nothing: its first transfer starts at its own base. */
  lemma ChainFromIdle(f: Fifo, base: u32, length: u32, chain: seq<Queueing>)
    requires Sound(f) && f.count == 0 && f.enabled && BackToBack(LengthOf(length), chain)
    ensures
      var g := Queue(f, base, length);
      Playing(g) && g.count == 1 && g.len0 == LengthOf(length) &&
      ChainReads(g, chain) == ChainWords(BaseOf(base), LengthOf(length), chain)
  {
    StartsAtBase(f, base, length);
    hide *;
    ChainReadsAsDocumented(Queue(f, base, length), chain);
  }
}
