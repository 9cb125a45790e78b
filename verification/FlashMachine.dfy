/** The FlashRAM command machine as a value: what commands and stores do to the array over any run. */
module FlashMachine {
  import opened MachineWords

  const FLASH_SIZE: nat := 0x2_0000
  const FLASH_PAGE: nat := 128
  const FLASH_SECTOR_PAGES: nat := 128
  const FLASH_SECTOR: nat := FLASH_SECTOR_PAGES * FLASH_PAGE
  const FLASH_PAGES: nat := FLASH_SIZE / FLASH_PAGE
  const STATUS_ERASE_OK: bv8 := 0x08
  const STATUS_PROGRAM_OK: bv8 := 0x04

  datatype FlashMode = ReadArray | Status | SiliconId | LoadPage

  type Cells = s: seq<bv8> | |s| == FLASH_SIZE witness seq(FLASH_SIZE, _ => 0xFF)
  type Page = s: seq<bv8> | |s| == FLASH_PAGE witness seq(FLASH_PAGE, _ => 0xFF)

  /** `eraseSector` is the base of the sector a pending sector erase will clear. */
  datatype Flash = Flash(cells: Cells, page: Page, mode: FlashMode, eraseSector: Option<nat>,
                         chipErase: bool, status: bv8)

  /** Every pending sector lies inside the array. */
  predicate Sound(f: Flash) {
    f.eraseSector.Some? ==> f.eraseSector.value + FLASH_SECTOR <= FLASH_SIZE
  }

  // ----- commands

  const ARRAY: nat := 0xF0
  const SILICON: nat := 0xE1
  const LOAD: nat := 0xB4
  const CHIP_SETUP: nat := 0x3C
  const SECTOR_SETUP: nat := 0x4B
  const ERASE: nat := 0x78
  const PROGRAM: nat := 0xA5

  function Op(cmd: u32): nat {
    cmd / 0x100_0000
  }

  function PageOf(cmd: u32): nat {
    cmd % 0x1_0000
  }

  /** A command word from its opcode and page. */
  function Command(op: nat, page: nat): (cmd: u32)
    requires op < 0x100 && page < 0x1_0000
    ensures Op(cmd) == op && PageOf(cmd) == page
  {
    op * 0x100_0000 + page
  }

  /** All-ones from `base` up to `end`. */
  function Erased(cells: Cells, base: nat, end: nat): (r: Cells)
    ensures forall k :: 0 <= k < FLASH_SIZE ==> r[k] == if base <= k < end then 0xFF else cells[k]
  {
    seq(FLASH_SIZE, k requires 0 <= k < FLASH_SIZE => if base <= k < end then 0xFF else cells[k])
  }

  /** A cell programmed with a byte keeps the bits both have. */
  function Cleared(cell: bv8, byte: bv8): bv8 {
    cell & byte
  }

  /** The page buffer ANDed into the array at `base`. */
  function Programmed(cells: Cells, base: nat, page: Page): (r: Cells)
    ensures forall k :: 0 <= k < FLASH_SIZE ==>
      r[k] == if base <= k < base + FLASH_PAGE then Cleared(cells[k], page[k - base]) else cells[k]
  {
    seq(FLASH_SIZE, k requires 0 <= k < FLASH_SIZE =>
      if base <= k < base + FLASH_PAGE then Cleared(cells[k], page[k - base]) else cells[k])
  }

  function Blank(): (p: Page)
    ensures forall k :: 0 <= k < FLASH_PAGE ==> p[k] == 0xFF
  {
    seq(FLASH_PAGE, _ => 0xFF)
  }

  /** The sector a page index names; an index past the chip names the last one. */
  function SectorBase(page: nat): (base: nat)
    ensures base + FLASH_SECTOR <= FLASH_SIZE
  {
    Min(page / FLASH_SECTOR_PAGES, FLASH_SIZE / FLASH_SECTOR - 1) * FLASH_SECTOR
  }

  function EraseExecuted(f: Flash): Flash {
    var cells :=
      if f.chipErase then Erased(f.cells, 0, FLASH_SIZE)
      else if f.eraseSector.Some? then Erased(f.cells, f.eraseSector.value, f.eraseSector.value + FLASH_SECTOR)
      else f.cells;
    f.(cells := cells, chipErase := false, eraseSector := None, status := STATUS_ERASE_OK, mode := Status)
  }

  function PageProgrammed(f: Flash, page: nat): Flash {
    var base := page * FLASH_PAGE;
    var cells := if base + FLASH_PAGE <= FLASH_SIZE then Programmed(f.cells, base, f.page) else f.cells;
    f.(cells := cells, status := STATUS_PROGRAM_OK, mode := Status)
  }

  function Commanded(f: Flash, cmd: u32): Flash {
    var op := Op(cmd);
    if op == ARRAY then f.(mode := ReadArray)
    else if op == SILICON then f.(mode := SiliconId)
    else if op == LOAD then f.(mode := LoadPage, page := Blank())
    else if op == CHIP_SETUP then f.(chipErase := true, eraseSector := None)
    else if op == SECTOR_SETUP then f.(chipErase := false, eraseSector := Some(SectorBase(PageOf(cmd))))
    else if op == ERASE then EraseExecuted(f)
    else if op == PROGRAM then PageProgrammed(f, PageOf(cmd))
    else f
  }

  /** A byte written at the window fills the page buffer while it is being loaded. */
  function Stored(f: Flash, off: nat, val: bv8): Flash {
    if f.mode == LoadPage then f.(page := f.page[off % FLASH_PAGE := val]) else f
  }

  const SILICON_ID: seq<bv8> := [0x11, 0x11, 0x80, 0x00, 0xC2, 0x00, 0x1D, 0x00]

  function ReadByte(f: Flash, off: nat): bv8 {
    match f.mode
    case ReadArray => if off < FLASH_SIZE then f.cells[off] else 0xFF
    case Status => if off % 2 == 1 then f.status else 0
    case SiliconId => SILICON_ID[off % 8]
    case LoadPage => f.page[off % FLASH_PAGE]
  }

  // ----- runs

  datatype Event = Cir(cmd: u32) | Store(off: nat, val: bv8)

  function Step(f: Flash, e: Event): Flash {
    match e
    case Cir(cmd) => Commanded(f, cmd)
    case Store(off, val) => Stored(f, off, val)
  }

  function Run(f: Flash, events: seq<Event>): Flash
    decreases |events|
  {
    if events == [] then f else Run(Step(f, events[0]), events[1..])
  }

  predicate Pending(f: Flash) {
    f.chipErase || f.eraseSector.Some?
  }

  /** The event executes an erase that was set up. */
  predicate Erases(f: Flash, e: Event) {
    e.Cir? && Op(e.cmd) == ERASE && Pending(f)
  }

  ghost predicate NeverErases(f: Flash, events: seq<Event>)
    decreases |events|
  {
    events == [] || (!Erases(f, events[0]) && NeverErases(Step(f, events[0]), events[1..]))
  }

  /** Every bit set in a is set in b. */
  predicate Within(a: bv8, b: bv8) {
    a & b == a
  }

  lemma WithinAnd(a: bv8, b: bv8, c: bv8)
    requires Within(a, b)
    ensures Within(a & c, b)
  {
  }

  lemma WithinTransitive(a: bv8, b: bv8, c: bv8)
    requires Within(a, b) && Within(b, c)
    ensures Within(a, c)
  {
  }

  lemma WithinReflexive(a: bv8)
    ensures Within(a, a)
  {
  }

  lemma ProgramLosesBits(cells: Cells, base: nat, page: Page, k: nat)
    requires k < FLASH_SIZE
    ensures Within(Programmed(cells, base, page)[k], cells[k])
  {
    WithinReflexive(cells[k]);
    if base <= k < base + FLASH_PAGE {
      WithinAnd(cells[k], cells[k], page[k - base]);
    }
    hide Within;
  }

  lemma StepLosesBits(f: Flash, e: Event, k: nat)
    requires !Erases(f, e) && k < FLASH_SIZE
    ensures Within(Step(f, e).cells[k], f.cells[k])
  {
    WithinReflexive(f.cells[k]);
    if e.Cir? {
      ProgramLosesBits(f.cells, PageOf(e.cmd) * FLASH_PAGE, f.page, k);
    }
    hide Within, Op, PageOf, Blank, SectorBase, Programmed, Erased;
  }

  /** Between executed erases no array byte ever gains a bit, whatever is commanded and stored. */
  lemma {:induction false} BitsOnlyLost(f: Flash, events: seq<Event>, k: nat)
    requires NeverErases(f, events) && k < FLASH_SIZE
    ensures Within(Run(f, events).cells[k], f.cells[k])
    decreases |events|
  {
    if events == [] {
      WithinReflexive(f.cells[k]);
    } else {
      var next := Step(f, events[0]);
      StepLosesBits(f, events[0], k);
      BitsOnlyLost(next, events[1..], k);
      WithinTransitive(Run(next, events[1..]).cells[k], next.cells[k], f.cells[k]);
    }
    hide Within, Step;
  }

  /** A program changes nothing outside its own page, and on its page keeps exactly the bits that
      were both there and in the buffer; a page past the chip changes nothing at all. */
  lemma ProgramTouchesOnlyItsPage(f: Flash, page: nat, k: nat)
    requires page < 0x1_0000 && k < FLASH_SIZE
    ensures
      var after := Commanded(f, Command(PROGRAM, page));
      after.cells[k] == (if k / FLASH_PAGE == page then f.cells[k] & f.page[k % FLASH_PAGE] else f.cells[k]) &&
      after.status == STATUS_PROGRAM_OK
  {
    var at := k % FLASH_PAGE;
    assert k == k / FLASH_PAGE * FLASH_PAGE + at;
    hide Op, PageOf;
  }

  lemma {:induction false} PendingSurvives(f: Flash, events: seq<Event>)
    requires forall e :: e in events && e.Cir? ==> Op(e.cmd) !in {CHIP_SETUP, SECTOR_SETUP, ERASE}
    ensures Run(f, events).eraseSector == f.eraseSector && Run(f, events).chipErase == f.chipErase
    decreases |events|
  {
    if events != [] {
      assert events[0] in events;
      PendingSurvives(Step(f, events[0]), events[1..]);
    }
    hide Op;
  }

  /** A sector set up for erase is erased whole by the next erase command, however much is read,
      loaded or programmed in between, and no other byte is. */
  lemma SectorEraseIsExact(f: Flash, page: nat, between: seq<Event>, k: nat)
    requires page < 0x1_0000 && k < FLASH_SIZE
    requires forall e :: e in between && e.Cir? ==> Op(e.cmd) !in {CHIP_SETUP, SECTOR_SETUP, ERASE}
    ensures
      var before := Run(Commanded(f, Command(SECTOR_SETUP, page)), between);
      var after := Commanded(before, Command(ERASE, 0));
      after.cells[k] == (if k / FLASH_SECTOR == Min(page / FLASH_SECTOR_PAGES, 7) then 0xFF else before.cells[k]) &&
      !Pending(after) && after.status == STATUS_ERASE_OK
  {
    var start := Commanded(f, Command(SECTOR_SETUP, page));
    PendingSurvives(start, between);
    hide Run, Op, PageOf;
    var at := k % FLASH_SECTOR;
    assert k == k / FLASH_SECTOR * FLASH_SECTOR + at;
    assert SectorBase(page) == Min(page / FLASH_SECTOR_PAGES, 7) * FLASH_SECTOR;
  }

  /** An erase command with nothing set up erases nothing, and still reports success. */
  lemma EraseNeedsSetup(f: Flash)
    requires !Pending(f)
    ensures
      var after := Commanded(f, Command(ERASE, 0));
      after.cells == f.cells && after.status == STATUS_ERASE_OK
  {
    hide Op, PageOf;
  }

  /** The whole chip set up for erase is erased by the next erase command, whatever sector was set up
      before, and however much is read, loaded or programmed in between. */
  lemma ChipEraseIsExact(f: Flash, between: seq<Event>, k: nat)
    requires k < FLASH_SIZE
    requires forall e :: e in between && e.Cir? ==> Op(e.cmd) !in {CHIP_SETUP, SECTOR_SETUP, ERASE}
    ensures
      var after := Commanded(Run(Commanded(f, 0x3C00_0000), between), 0x7800_0000);
      after.cells[k] == 0xFF && !Pending(after) && after.mode == Status && after.status == 0x08
  {
    CommandWords(0);
    PendingSurvives(Commanded(f, 0x3C00_0000), between);
    hide Run, Op, PageOf;
  }

  /** What a game polls: an erase reads as done by bit 3, a program by bit 2, at every odd offset. */
  lemma StatusReads(f: Flash, page: nat, off: nat)
    requires page < 0x1_0000
    ensures ReadByte(Commanded(f, 0x7800_0000), off) == if off % 2 == 1 then 0x08 else 0
    ensures ReadByte(Commanded(f, 0xA500_0000 + page), off) == if off % 2 == 1 then 0x04 else 0
  {
    CommandWords(page);
    hide Op, PageOf, Programmed, Erased;
  }

  /** The identification a game asks for, eight bytes over and over. */
  lemma IdentificationReads(f: Flash, off: nat)
    ensures ReadByte(Commanded(f, 0xE100_0000), off) ==
      match off % 8
      case 0 => 0x11
      case 1 => 0x11
      case 2 => 0x80
      case 4 => 0xC2
      case 6 => 0x1D
      case _ => 0
  {
    CommandWords(0);
    hide Op, PageOf;
  }

  // ----- writing a page

  /** The command words as a game writes them. */
  lemma CommandWords(page: nat)
    requires page < 0x1_0000
    ensures 0xF000_0000 == Command(ARRAY, 0) && 0xE100_0000 == Command(SILICON, 0)
    ensures 0xB400_0000 == Command(LOAD, 0) && 0xA500_0000 + page == Command(PROGRAM, page)
    ensures 0x3C00_0000 == Command(CHIP_SETUP, 0) && 0x4B00_0000 + page == Command(SECTOR_SETUP, page)
    ensures 0x7800_0000 == Command(ERASE, 0)
  {
  }

  /** 128 bytes stored in order at the page buffer's window. */
  function Stores(data: Page, from: nat): seq<Event>
    requires from <= FLASH_PAGE
    decreases FLASH_PAGE - from
  {
    if from == FLASH_PAGE then [] else [Store(from, data[from])] + Stores(data, from + 1)
  }

  lemma {:induction false} StoresFillTheBuffer(f: Flash, data: Page, from: nat)
    requires f.mode == LoadPage && from <= FLASH_PAGE
    requires forall k :: 0 <= k < from ==> f.page[k] == data[k]
    ensures Run(f, Stores(data, from)) == f.(page := data)
    decreases FLASH_PAGE - from
  {
    if from == FLASH_PAGE {
      assert f.page == data;
    } else {
      var rest := Stores(data, from + 1);
      assert ([Store(from, data[from])] + rest)[1..] == rest;
      StoresFillTheBuffer(Stored(f, from, data[from]), data, from + 1);
    }
  }

  lemma {:induction false} RunComposes(f: Flash, a: seq<Event>, b: seq<Event>)
    ensures Run(f, a + b) == Run(Run(f, a), b)
    decreases |a|
  {
    if a == [] {
      assert a + b == b;
    } else {
      assert (a + b)[0] == a[0] && (a + b)[1..] == a[1..] + b;
      RunComposes(Step(f, a[0]), a[1..], b);
    }
    hide Step;
  }

  /** Load, 128 stores, program. */
  function ProgramPage(page: nat, data: Page): seq<Event>
    requires page < FLASH_PAGES
  {
    [Cir(0xB400_0000)] + Stores(data, 0) + [Cir(0xA500_0000 + page)]
  }

  /** Set up, erase, then program. */
  function RewritePage(page: nat, data: Page): seq<Event>
    requires page < FLASH_PAGES
  {
    [Cir(0x4B00_0000 + page), Cir(0x7800_0000)] + ProgramPage(page, data)
  }

  lemma RunOne(f: Flash, e: Event)
    ensures Run(f, [e]) == Step(f, e)
  {
    assert Run(Step(f, e), [e][1..]) == Step(f, e);
  }

  lemma ProgramPageRun(f: Flash, page: nat, data: Page)
    requires page < FLASH_PAGES
    ensures
      var g := f.(mode := LoadPage, page := data);
      Run(f, ProgramPage(page, data)) == Commanded(g, Command(PROGRAM, page))
  {
    var load, program := Cir(0xB400_0000), Cir(0xA500_0000 + page);
    CommandWords(page);
    var loaded := Commanded(f, load.cmd);
    assert loaded == f.(mode := LoadPage, page := Blank());
    assert ProgramPage(page, data) == [load] + Stores(data, 0) + [program];
    hide Run, Commanded, Stores, Command, Blank, ProgramPage;
    RunComposes(f, [load] + Stores(data, 0), [program]);
    RunComposes(f, [load], Stores(data, 0));
    RunOne(f, load);
    StoresFillTheBuffer(loaded, data, 0);
    RunOne(f.(mode := LoadPage, page := data), program);
  }

  /** While it is being loaded the buffer reads as what was stored in it, over and over. */
  lemma BufferReads(f: Flash, data: Page, off: nat)
    ensures ReadByte(Run(f, [Cir(0xB400_0000)] + Stores(data, 0)), off) == data[off % 128]
  {
    var loaded := Commanded(f, 0xB400_0000);
    CommandWords(0);
    RunComposes(f, [Cir(0xB400_0000)], Stores(data, 0));
    RunOne(f, Cir(0xB400_0000));
    assert loaded == f.(mode := LoadPage, page := Blank());
    StoresFillTheBuffer(loaded, data, 0);
    hide Run, Commanded, Stores, Command, Blank;
  }

  /** Past the chip the array reads all-ones. */
  lemma PastTheChipReadsOnes(f: Flash, off: nat)
    requires 0x2_0000 <= off
    ensures ReadByte(Commanded(f, 0xF000_0000), off) == 0xFF
  {
    CommandWords(0);
    hide Op, PageOf;
  }

  /** A page programmed and read back: the data ANDed with what was there. */
  function PageReadBack(f: Flash, page: nat, data: Page, k: nat): bv8
    requires page < FLASH_PAGES && k < FLASH_PAGE
  {
    ReadByte(Commanded(Run(f, ProgramPage(page, data)), 0xF000_0000), page * FLASH_PAGE + k)
  }

  lemma PagePosition(page: nat, k: nat)
    requires page < FLASH_PAGES && k < FLASH_PAGE
    ensures page * FLASH_PAGE + k < FLASH_SIZE
    ensures (page * FLASH_PAGE + k) / FLASH_PAGE == page && (page * FLASH_PAGE + k) % FLASH_PAGE == k
  {
  }

  lemma ReadsBackAnded(f: Flash, page: nat, data: Page, k: nat)
    requires page < FLASH_PAGES && k < FLASH_PAGE
    ensures page * FLASH_PAGE + k < FLASH_SIZE
    ensures PageReadBack(f, page, data, k) == f.cells[page * FLASH_PAGE + k] & data[k]
  {
    var at := page * FLASH_PAGE + k;
    PagePosition(page, k);
    ProgramPageRun(f, page, data);
    var loaded := f.(mode := LoadPage, page := data);
    ProgramTouchesOnlyItsPage(loaded, page, at);
    ArrayModeReads(Commanded(loaded, Command(PROGRAM, page)), at);
    hide Run, Commanded, ProgramPage, Command, ReadByte;
  }

  lemma AndKeepsIffWithin(a: bv8, b: bv8)
    ensures b & a == a <==> Within(a, b)
  {
  }

  /** Programming without erasing reads back the data exactly when no bit had to be set. */
  lemma ProgramReadsBack(f: Flash, page: nat, data: Page)
    requires page < FLASH_PAGES
    ensures (forall k :: 0 <= k < FLASH_PAGE ==> PageReadBack(f, page, data, k) == data[k]) <==>
            (forall k :: 0 <= k < FLASH_PAGE ==> Within(data[k], f.cells[page * FLASH_PAGE + k]))
  {
    hide PageReadBack, Within;
    forall k | 0 <= k < FLASH_PAGE
      ensures PageReadBack(f, page, data, k) == data[k] <==> Within(data[k], f.cells[page * FLASH_PAGE + k])
    {
      ReadsBackAnded(f, page, data, k);
      AndKeepsIffWithin(data[k], f.cells[page * FLASH_PAGE + k]);
    }
  }

  /** The full sequence, from any state whatever: the page reads back as written, the rest of its
      sector reads all-ones, and every other sector reads as it did. */
  lemma RewriteRoundTrip(f: Flash, page: nat, data: Page, off: nat)
    requires page < FLASH_PAGES && off < FLASH_SIZE
    ensures
      var after := Commanded(Run(f, RewritePage(page, data)), 0xF000_0000);
      ReadByte(after, off) ==
        if off / FLASH_PAGE == page then data[off % FLASH_PAGE]
        else if off / FLASH_SECTOR == page / FLASH_SECTOR_PAGES then 0xFF
        else f.cells[off]
  {
    hide *;
    RewriteRun(f, page, data);
    RewrittenCell(f, page, data, off);
    ArrayModeReads(Run(f, RewritePage(page, data)), off);
  }

  /** Setting up and erasing, then loading and programming. */
  lemma RewriteRun(f: Flash, page: nat, data: Page)
    requires page < FLASH_PAGES
    ensures
      var erased := Commanded(Commanded(f, Command(SECTOR_SETUP, page)), Command(ERASE, 0));
      Run(f, RewritePage(page, data)) == Commanded(erased.(mode := LoadPage, page := data), Command(PROGRAM, page))
  {
    var setup, erase := Cir(0x4B00_0000 + page), Cir(0x7800_0000);
    assert RewritePage(page, data) == [setup, erase] + ProgramPage(page, data);
    assert [setup, erase] == [setup] + [erase];
    CommandWords(page);
    hide Run, Commanded, ProgramPage, Command, RewritePage;
    RunComposes(f, [setup, erase], ProgramPage(page, data));
    RunComposes(f, [setup], [erase]);
    RunOne(f, setup);
    RunOne(Commanded(f, setup.cmd), erase);
    ProgramPageRun(Commanded(Commanded(f, setup.cmd), erase.cmd), page, data);
  }

  lemma RewrittenCell(f: Flash, page: nat, data: Page, off: nat)
    requires page < FLASH_PAGES && off < FLASH_SIZE
    ensures Run(f, RewritePage(page, data)).cells[off] ==
      if off / FLASH_PAGE == page then data[off % FLASH_PAGE]
      else if off / FLASH_SECTOR == page / FLASH_SECTOR_PAGES then 0xFF
      else f.cells[off]
  {
    var start := Commanded(f, Command(SECTOR_SETUP, page));
    var erased := Commanded(start, Command(ERASE, 0));
    assert Run(start, []) == start;
    hide Commanded, Command, Run, RewritePage, SectorBase;
    RewriteRun(f, page, data);
    SectorEraseIsExact(f, page, [], off);
    ProgramTouchesOnlyItsPage(erased.(mode := LoadPage, page := data), page, off);
    AllOnes(data[off % FLASH_PAGE]);
    PageInSector(off);
    SectorSetupKeepsCells(f, page);
  }

  lemma SectorSetupKeepsCells(f: Flash, page: nat)
    requires page < 0x1_0000
    ensures Commanded(f, Command(SECTOR_SETUP, page)).cells == f.cells
  {
  }

  lemma ArrayModeReads(f: Flash, off: nat)
    requires off < FLASH_SIZE
    ensures ReadByte(Commanded(f, 0xF000_0000), off) == f.cells[off]
  {
  }

  lemma AllOnes(b: bv8)
    ensures 0xFF & b == b
  {
  }

  lemma PageInSector(off: nat)
    ensures off / FLASH_PAGE / FLASH_SECTOR_PAGES == off / FLASH_SECTOR
  {
  }
}
