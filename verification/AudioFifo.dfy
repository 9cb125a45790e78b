/** The Audio Interface's two-deep DMA FIFO as a value, with its delayed-carry address bug. */
module AudioFifo {
  import opened MachineWords

  /** The page whose crossing arms the delayed carry. */
  const PAGE: nat := 0x2000
  /** The AI drives 24 address bits. */
  const ADDRESS_SPACE: nat := 0x100_0000
  const PAGES: nat := 0x800

  /** Two slots, the front one draining; `carry` is the page carry not yet applied to it. */
  datatype Fifo = Fifo(addr0: u32, len0: u32, addr1: u32, len1: u32, count: nat, carry: nat, enabled: bool)

  // ----- register writes

  function BaseOf(val: u32): (base: u32)
    ensures base % 8 == 0 && base <= val % 0x100_0000 < base + 8
  {
    val % ADDRESS_SPACE / 8 * 8
  }

  function LengthOf(val: u32): (length: u32)
    ensures length % 8 == 0 && length <= val % 0x4_0000 < length + 8
  {
    val % 0x4_0000 / 8 * 8
  }

  /** `AI_LENGTH` with a slot free. */
  function Enqueued(f: Fifo, length: u32): Fifo
    requires f.count < 2
  {
    if f.count == 0 then f.(len0 := length, count := 1, carry := 0)
    else f.(len1 := length, count := 2)
  }

  function Staged(f: Fifo, base: u32): Fifo {
    if f.count == 0 then f.(addr0 := base)
    else if f.count == 1 then f.(addr1 := base)
    else f
  }

  function Written(f: Fifo, index: nat, val: u32): Fifo {
    if index == 0 then Staged(f, BaseOf(val))
    else if index == 1 then (if f.count < 2 then Enqueued(f, LengthOf(val)) else f)
    else if index == 2 then f.(enabled := val % 2 == 1)
    else f
  }

  // ----- one output sample

  /** What every register write and every sample keeps. */
  predicate Sound(f: Fifo) {
    f.count <= 2 && f.carry <= 1 &&
    f.addr0 % 4 == 0 && f.addr1 % 4 == 0 && f.len0 % 4 == 0 && f.len1 % 4 == 0
  }

  /** The sample is played from RDRAM. */
  predicate Active(f: Fifo) {
    f.count > 0 && f.len0 > 0 && f.enabled
  }

  /** The front address once its pending carry is added to the page bits of the 32-bit register. */
  function Carried(f: Fifo): u32 {
    (f.addr0 / PAGE * PAGE + f.carry * PAGE) % TWO_TO_THE_32 / PAGE * PAGE + f.addr0 % PAGE
  }

  /** The address the sample reads. */
  function ReadAddress(f: Fifo): nat {
    Carried(f) % ADDRESS_SPACE
  }

  /** An address moved within its page. */
  function InPage(addr: u32, low: nat): u32
    requires low < PAGE
  {
    addr / PAGE * PAGE + low
  }

  /** One word on: the low bits advance, and their carry is only remembered. */
  function Advanced(f: Fifo): Fifo
    requires Sound(f) && Active(f)
  {
    var low := Carried(f) % PAGE + 4;
    f.(addr0 := InPage(Carried(f), low % PAGE),
       carry := if low >= PAGE then 1 else 0,
       len0 := f.len0 - 4)
  }

  function Played(f: Fifo): Fifo
    requires Sound(f)
  {
    if Active(f) then Advanced(f) else f
  }

  predicate Drained(f: Fifo) {
    f.count > 0 && f.len0 == 0
  }

  /** A drained front transfer makes way for the one behind it. */
  function Retired(f: Fifo): Fifo {
    if !Drained(f) then f
    else if f.count > 1 then f.(count := f.count - 1, addr0 := f.addr1, len0 := f.len1)
    else f.(count := f.count - 1)
  }

  function Sampled(f: Fifo): Fifo
    requires Sound(f)
  {
    Retired(Played(f))
  }

  /** The sample raises the interrupt: the queued transfer starts with it. */
  predicate Promotes(f: Fifo)
    requires Sound(f)
  {
    Drained(Played(f)) && f.count > 1
  }

  /** Moving an aligned word within a page keeps it aligned. */
  lemma WordAligned(page: nat, addr: nat)
    requires addr % 4 == 0
    ensures (page * PAGE + (addr % PAGE + 4) % PAGE) % 4 == 0
  {
    var w := addr / 4;
    QuotientUnique(addr, PAGE, w / 0x800, w % 0x800 * 4);
    var next := w % 0x800 + 1;
    var low := if next == 0x800 then 0 else next;
    assert (addr % PAGE + 4) % PAGE == low * 4;
    QuotientUnique(page * PAGE + low * 4, 4, page * 0x800 + low, 0);
  }

  lemma AdvanceIsSound(f: Fifo)
    requires Sound(f) && Active(f)
    ensures Sound(Advanced(f))
  {
    CarriedParts(f);
    WordAligned(Carried(f) / PAGE, f.addr0);
    hide Carried;
  }

  lemma SampleIsSound(f: Fifo)
    requires Sound(f)
    ensures Sound(Sampled(f))
  {
    if Active(f) {
      AdvanceIsSound(f);
      hide Advanced;
    }
  }

  lemma WriteIsSound(f: Fifo, index: nat, val: u32)
    requires Sound(f)
    ensures Sound(Written(f, index, val))
  {
    EightIsFour(BaseOf(val));
    EightIsFour(LengthOf(val));
    hide BaseOf, LengthOf;
  }

  lemma EightIsFour(x: nat)
    requires x % 8 == 0
    ensures x % 4 == 0
  {
  }

  // ----- where a transfer reads

  /** Byte `low` of page `page` on the 24-bit bus. */
  function At(page: nat, low: nat): nat {
    page % PAGES * PAGE + low
  }

  lemma AtIsAddress(page: nat, low: nat)
    requires low < PAGE
    ensures (page * PAGE + low) % ADDRESS_SPACE == At(page, low)
  {
    var q := page / PAGES;
    QuotientUnique(page * PAGE + low, ADDRESS_SPACE, q, page % PAGES * PAGE + low);
  }

  lemma AtPages(page: nat, low: nat)
    requires low < PAGE
    ensures (page * PAGE + low) / PAGE == page && (page * PAGE + low) % PAGE == low
  {
  }

  /** The next word in line, crossing pages and wrapping the address space. */
  lemma NextWord(page: nat, low: nat)
    requires low < PAGE && low % 4 == 0
    ensures
      (At(page, low) + 4) % ADDRESS_SPACE
        == if low + 4 >= PAGE then At(page + 1, low + 4 - PAGE) else At(page, low + 4)
    ensures (At(page, low) + 4) % PAGE == 0 <==> low + 4 >= PAGE
  {
  }

  /** Where the next word of the front transfer lies: its address with the carry it owes. */
  function Position(f: Fifo): nat {
    At(f.addr0 / PAGE + f.carry, f.addr0 % PAGE)
  }

  lemma WholePages(page: nat)
    ensures
      var wrapped := page * PAGE % TWO_TO_THE_32;
      wrapped / PAGE * PAGE == wrapped
  {
    var q := page / 0x8_0000;
    QuotientUnique(page * PAGE, TWO_TO_THE_32, q, page % 0x8_0000 * PAGE);
  }

  lemma CarriedParts(f: Fifo)
    requires f.carry <= 1
    ensures Carried(f) % PAGE == f.addr0 % PAGE
    ensures Carried(f) / PAGE == (f.addr0 / PAGE + f.carry) % 0x8_0000
  {
    var page := f.addr0 / PAGE + f.carry;
    assert f.addr0 / PAGE * PAGE + f.carry * PAGE == page * PAGE;
    assert page <= 0x8_0000;
    assert page * PAGE % TWO_TO_THE_32 / PAGE == page % 0x8_0000;
  }

  /** The late carry is applied before the read, so within one transfer nothing is skipped: each
      sample reads the position and moves it on by exactly one word, across any page. */
  lemma AdvanceIsLinear(f: Fifo)
    requires Sound(f) && Active(f)
    ensures ReadAddress(f) == Position(f)
    ensures Position(Advanced(f)) == (Position(f) + 4) % ADDRESS_SPACE
    ensures Advanced(f).carry == 1 <==> (Position(f) + 4) % PAGE == 0
  {
    var page, low := f.addr0 / PAGE + f.carry, f.addr0 % PAGE;
    hide ReadAddress, Advanced, Carried, At;
    assert Position(f) == At(page, low);
    assert low % 4 == 0;
    ReadIsPosition(f);
    PositionMoves(f);
    AdvancedParts(f);
    hide *;
    NextWord(page, low);
  }

  lemma ReadIsPosition(f: Fifo)
    requires Sound(f)
    ensures ReadAddress(f) == Position(f)
  {
    CarriedParts(f);
    AtIsAddress(Carried(f) / PAGE, f.addr0 % PAGE);
    AtWraps(f.addr0 / PAGE + f.carry, f.addr0 % PAGE);
    hide Carried, At;
  }

  lemma PositionMoves(f: Fifo)
    requires Sound(f) && Active(f)
    ensures
      var page, next := f.addr0 / PAGE + f.carry, f.addr0 % PAGE + 4;
      Position(Advanced(f)) == if next >= PAGE then At(page + 1, next - PAGE) else At(page, next)
  {
    var page, next := f.addr0 / PAGE + f.carry, f.addr0 % PAGE + 4;
    CarriedParts(f);
    AdvancedParts(f);
    AtWraps(page, if next >= PAGE then next - PAGE else next);
    assert next <= PAGE && next % PAGE == if next >= PAGE then next - PAGE else next;
    hide Carried, Advanced, At;
  }

  /** The register holds 19 page bits, the bus takes 11 of them. */
  lemma AtWraps(page: nat, low: nat)
    ensures At(page % 0x8_0000, low) == At(page, low)
    ensures At(page % 0x8_0000 + 1, low) == At(page + 1, low)
  {
    var q, r := page / 0x8_0000, page % 0x8_0000;
    SameBusPage(q, r);
    SameBusPage(q, r + 1);
  }

  lemma SameBusPage(q: nat, r: nat)
    ensures (q * 0x8_0000 + r) % PAGES == r % PAGES
  {
    QuotientUnique(q * 0x8_0000 + r, PAGES, q * 0x100 + r / PAGES, r % PAGES);
  }

  lemma AdvancedParts(f: Fifo)
    requires Sound(f) && Active(f)
    ensures
      var low, after := f.addr0 % PAGE + 4, Advanced(f);
      after.addr0 / PAGE == Carried(f) / PAGE && after.addr0 % PAGE == low % PAGE &&
      after.carry == (if low >= PAGE then 1 else 0) && low % 4 == 0 && low <= PAGE
  {
    CarriedParts(f);
    AtPages(Carried(f) / PAGE, (f.addr0 % PAGE + 4) % PAGE);
    hide Carried;
  }
}
