/** The FlashRAM chip: array and page buffer updated in place by the command machine. */
module FlashRam {
  import opened MachineWords
  import opened FlashMachine

  class FlashRam {
    const cells: array<bv8>
    const pageBuffer: array<bv8>
    var mode: FlashMode
    var eraseSector: Option<nat>
    var chipErase: bool
    var status: bv8

    ghost predicate Valid()
      reads this
    {
      cells.Length == FLASH_SIZE && pageBuffer.Length == FLASH_PAGE && cells != pageBuffer &&
      (eraseSector.Some? ==> eraseSector.value + FLASH_SECTOR <= FLASH_SIZE)
    }

    ghost function Value(): (f: Flash)
      requires Valid()
      reads this, cells, pageBuffer
      ensures Sound(f)
    {
      Flash(cells[..], pageBuffer[..], mode, eraseSector, chipErase, status)
    }

    /** Erased flash reads all-ones. */
    constructor ()
      ensures Valid() && fresh(cells) && fresh(pageBuffer)
      ensures mode == ReadArray && !Pending(Value()) && status == 0
      ensures forall off :: 0 <= off < FLASH_SIZE ==> ReadByte(Value(), off) == 0xFF
    {
      cells := new bv8[FLASH_SIZE](_ => 0xFF);
      pageBuffer := new bv8[FLASH_PAGE](_ => 0xFF);
      mode, eraseSector, chipErase, status := ReadArray, None, false, 0;
    }

    method WriteCir(cmd: u32)
      requires Valid()
      modifies this, cells, pageBuffer
      ensures Valid() && Value() == Commanded(old(Value()), cmd)
    {
      hide Op, PageOf;
      var op := Op(cmd);
      if op == ARRAY {
        mode := ReadArray;
      } else if op == SILICON {
        mode := SiliconId;
      } else if op == LOAD {
        mode := LoadPage;
        Fill(pageBuffer, 0, FLASH_PAGE);
        assert pageBuffer[..] == Blank();
      } else if op == CHIP_SETUP {
        chipErase, eraseSector := true, None;
      } else if op == SECTOR_SETUP {
        chipErase := false;
        var sector := Min(PageOf(cmd) / FLASH_SECTOR_PAGES, FLASH_SIZE / FLASH_SECTOR - 1);
        eraseSector := Some(sector * FLASH_SECTOR);
      } else if op == ERASE {
        ExecuteErase();
      } else if op == PROGRAM {
        ProgramFromBuffer(PageOf(cmd));
      }
    }

    method ExecuteErase()
      requires Valid()
      modifies this, cells
      ensures Valid() && Value() == EraseExecuted(old(Value()))
    {
      ghost var was: Cells := cells[..];
      if chipErase {
        Fill(cells, 0, FLASH_SIZE);
        assert cells[..] == Erased(was, 0, FLASH_SIZE);
      } else if eraseSector.Some? {
        var base := eraseSector.value;
        var end := Min(base + FLASH_SECTOR, cells.Length);
        Fill(cells, base, end);
        assert cells[..] == Erased(was, base, base + FLASH_SECTOR);
      }
      chipErase, eraseSector := false, None;
      status, mode := STATUS_ERASE_OK, Status;
    }

    method Fill(a: array<bv8>, base: nat, end: nat)
      requires base <= end <= a.Length
      modifies a
      ensures forall k :: 0 <= k < a.Length ==> a[k] == if base <= k < end then 0xFF else old(a[k])
    {
      for i := base to end
        invariant forall k :: 0 <= k < a.Length ==> a[k] == if base <= k < i then 0xFF else old(a[k])
      {
        a[i] := 0xFF;
      }
    }

    /** Programming clears bits; a page past the chip is ignored. */
    method ProgramFromBuffer(page: nat)
      requires Valid()
      modifies this, cells
      ensures Valid() && Value() == PageProgrammed(old(Value()), page)
    {
      var base := page * FLASH_PAGE;
      if base + FLASH_PAGE <= cells.Length {
        AndBufferAt(base);
      }
      status, mode := STATUS_PROGRAM_OK, Status;
    }

    method AndBufferAt(base: nat)
      requires Valid() && base + FLASH_PAGE <= FLASH_SIZE
      modifies cells
      ensures cells[..] == Programmed(old(cells[..]), base, pageBuffer[..])
    {
      ghost var was: Cells := cells[..];
      for i := 0 to FLASH_PAGE
        invariant forall k :: 0 <= k < FLASH_SIZE ==>
          cells[k] == if base <= k < base + i then Cleared(was[k], pageBuffer[k - base]) else was[k]
      {
        cells[base + i] := cells[base + i] & pageBuffer[i];
        assert cells[base + i] == Cleared(was[base + i], pageBuffer[i]);
        hide Cleared;
      }
      hide Cleared;
    }

    method Read(off: nat) returns (val: bv8)
      requires Valid()
      ensures val == ReadByte(Value(), off)
    {
      match mode
      case ReadArray => val := if off < cells.Length then cells[off] else 0xFF;
      case Status => val := if off % 2 == 1 then status else 0;
      case SiliconId => val := SILICON_ID[off % 8];
      case LoadPage => val := pageBuffer[off % FLASH_PAGE];
    }

    method Write(off: nat, val: bv8)
      requires Valid()
      modifies pageBuffer
      ensures Valid() && Value() == Stored(old(Value()), off, val)
    {
      if mode == LoadPage {
        pageBuffer[off % FLASH_PAGE] := val;
      }
    }

    /** Any run of commands and stores takes the chip where the machine's run goes, and no sector
        index a guest can write sends an erase out of bounds. */
    method Drive(events: seq<Event>)
      requires Valid()
      modifies this, cells, pageBuffer
      ensures Valid() && Value() == Run(old(Value()), events)
    {
      for i := 0 to |events|
        invariant Valid()
        invariant Run(Value(), events[i..]) == Run(old(Value()), events)
      {
        hide Commanded, Stored, Sound;
        assert events[i..][0] == events[i] && events[i..][1..] == events[i + 1..];
        match events[i]
        case Cir(cmd) => WriteCir(cmd);
        case Store(off, val) => Write(off, val);
      }
      assert events[|events|..] == [];
    }
  }
}
