/** The VR4300's 16 KiB instruction cache, which nothing keeps coherent with memory but software. */
module InstructionCache {
  import opened MachineWords
  import opened BigEndian
  import D = DataCache

  const LINE_SIZE: nat := 32
  const LINES: nat := 512

  datatype Line = Line(tag: nat, valid: bool, data: seq<byte>)

  // ----- addresses

  function Index(addr: nat): (i: nat)
    ensures i < LINES
  {
    addr / LINE_SIZE % LINES
  }

  function TagOf(addr: nat): nat {
    addr / 0x1000
  }

  function Offset(addr: nat): (o: nat)
    ensures o < LINE_SIZE
  {
    addr % LINE_SIZE
  }

  function Base(addr: nat): nat {
    addr - addr % LINE_SIZE
  }

  function ResidentAddr(tag: nat, index: nat): nat {
    tag * 0x1000 + index * LINE_SIZE % 0x1000
  }

  /** Bits 12 and 13 of an address are in both the tag and the index: the two must agree. */
  predicate TagFitsIndex(tag: nat, index: nat) {
    tag % 4 == index / 128
  }

  /** An address put together from a frame, a line within the page and a byte within the line. */
  lemma Parts(tag: nat, m: nat, k: nat)
    requires m < 128 && k < LINE_SIZE
    ensures
      var addr := tag * 0x1000 + m * LINE_SIZE + k;
      TagOf(addr) == tag && Offset(addr) == k && Index(addr) == tag % 4 * 128 + m
  {
    var addr := tag * 0x1000 + m * LINE_SIZE + k;
    QuotientUnique(addr, 0x1000, tag, m * LINE_SIZE + k);
    QuotientUnique(addr, LINE_SIZE, tag * 128 + m, k);
    QuotientUnique(tag * 128 + m, LINES, tag / 4, tag % 4 * 128 + m);
  }

  lemma LineWithinPage(tag: nat, m: nat)
    requires m < 128
    ensures ResidentAddr(tag, tag % 4 * 128 + m) == tag * 0x1000 + m * LINE_SIZE
    ensures TagFitsIndex(tag, tag % 4 * 128 + m)
  {
    QuotientUnique((tag % 4 * 128 + m) * LINE_SIZE, 0x1000, tag % 4, m * LINE_SIZE);
  }

  lemma AddressParts(addr: nat)
    ensures ResidentAddr(TagOf(addr), Index(addr)) == Base(addr)
    ensures TagFitsIndex(TagOf(addr), Index(addr))
  {
    var tag, low := addr / 0x1000, addr % 0x1000;
    var m, k := low / LINE_SIZE, low % LINE_SIZE;
    assert low == m * LINE_SIZE + k;
    Parts(tag, m, k);
    LineWithinPage(tag, m);
    hide ResidentAddr, Index, TagFitsIndex;
  }

  /** A tag that agrees with its index names an address of that index, at a line boundary. */
  lemma ResidentParts(tag: nat, index: nat)
    requires index < LINES
    ensures ResidentAddr(tag, index) % LINE_SIZE == 0
    ensures TagFitsIndex(tag, index) ==> Index(ResidentAddr(tag, index)) == index
  {
    var m := index % 128;
    QuotientUnique(index * LINE_SIZE, 0x1000, index / 128, m * LINE_SIZE);
    QuotientUnique(ResidentAddr(tag, index), LINE_SIZE, tag * 128 + m, 0);
    QuotientUnique(tag * 128 + m, LINES, tag / 4, tag % 4 * 128 + m);
  }

  lemma LineOf(addr: nat)
    ensures Base(addr) % LINE_SIZE == 0 && Index(Base(addr)) == Index(addr)
  {
    AddressParts(addr);
    ResidentParts(TagOf(addr), Index(addr));
  }

  lemma AlignedApart(a: nat, b: nat)
    requires a % LINE_SIZE == 0 && b % LINE_SIZE == 0 && a != b
    ensures a + LINE_SIZE <= b || b + LINE_SIZE <= a
  {
  }

  // ----- cache and memory as values

  predicate Hits(lines: seq<Line>, addr: nat)
    requires |lines| == LINES
  {
    lines[Index(addr)].valid && lines[Index(addr)].tag == TagOf(addr)
  }

  function At(ram: seq<byte>, base: nat): seq<byte>
    requires base + LINE_SIZE <= |ram|
  {
    ram[base..base + LINE_SIZE]
  }

  /** A valid line holds what memory holds, unless its memory is among the lines `owed` a refresh. */
  predicate LineKept(line: Line, index: nat, ram: seq<byte>, owed: set<nat>) {
    |line.data| == LINE_SIZE &&
    (line.valid ==>
      TagFitsIndex(line.tag, index) && ResidentAddr(line.tag, index) + LINE_SIZE <= |ram| &&
      (ResidentAddr(line.tag, index) in owed || line.data == At(ram, ResidentAddr(line.tag, index))))
  }

  predicate Kept(lines: seq<Line>, ram: seq<byte>, owed: set<nat>) {
    |lines| == LINES && forall i :: 0 <= i < LINES ==> LineKept(lines[i], i, ram, owed)
  }

  /** The line addr selects holds addr's window of memory. */
  predicate HoldsMemory(lines: seq<Line>, ram: seq<byte>, addr: nat)
    requires |lines| == LINES
  {
    Base(addr) + LINE_SIZE <= |ram| && lines[Index(addr)].data == At(ram, Base(addr))
  }

  lemma HitHoldsMemory(lines: seq<Line>, ram: seq<byte>, owed: set<nat>, addr: nat)
    requires Kept(lines, ram, owed) && Hits(lines, addr)
    ensures Base(addr) + LINE_SIZE <= |ram|
    ensures Base(addr) !in owed ==> HoldsMemory(lines, ram, addr)
  {
    AddressParts(addr);
    assert LineKept(lines[Index(addr)], Index(addr), ram, owed);
  }

  /** The line a fill of addr installs. */
  function LineFrom(ram: seq<byte>, addr: nat): Line
    requires Base(addr) + LINE_SIZE <= |ram|
  {
    Line(TagOf(addr), true, At(ram, Base(addr)))
  }

  /** The line addr selects was filled from memory, and no other changed. */
  predicate Filled(was: seq<Line>, now: seq<Line>, ram: seq<byte>, addr: nat) {
    |was| == LINES && Base(addr) + LINE_SIZE <= |ram| && now == was[Index(addr) := LineFrom(ram, addr)]
  }

  predicate WellFormed(lines: seq<Line>) {
    |lines| == LINES && forall i :: 0 <= i < LINES ==> |lines[i].data| == LINE_SIZE
  }

  /** The word a fetch returns: the resident line's, whatever memory holds by now, and otherwise
      memory's. */
  function Fetched(lines: seq<Line>, ram: seq<byte>, addr: nat): nat
    requires WellFormed(lines) && addr < |ram| && addr % 4 == 0 && |ram| % LINE_SIZE == 0
  {
    WordFits(addr, |ram|);
    if Hits(lines, addr) then Word(lines[Index(addr)].data[Offset(addr)..Offset(addr) + 4])
    else Word(ram[addr..addr + 4])
  }

  lemma KeptWellFormed(lines: seq<Line>, ram: seq<byte>, owed: set<nat>)
    requires Kept(lines, ram, owed)
    ensures WellFormed(lines)
  {
    forall i | 0 <= i < LINES ensures |lines[i].data| == LINE_SIZE {
      assert LineKept(lines[i], i, ram, owed);
    }
  }

  /** Once the line an index holds is replaced by what memory holds, or is no longer valid, that line
      of memory is owed nothing. */
  lemma Settles(lines: seq<Line>, ram: seq<byte>, owed: set<nat>, addr: nat, line: Line)
    requires Kept(lines, ram, owed) && |line.data| == LINE_SIZE
    requires line.valid ==>
      line.tag == TagOf(addr) && Base(addr) + LINE_SIZE <= |ram| && line.data == At(ram, Base(addr))
    ensures Kept(lines[Index(addr) := line], ram, owed - {Base(addr)})
  {
    AddressParts(addr);
    LineOf(addr);
    var settled := lines[Index(addr) := line];
    forall j | 0 <= j < LINES ensures LineKept(settled[j], j, ram, owed - {Base(addr)}) {
      assert LineKept(lines[j], j, ram, owed);
      ResidentParts(lines[j].tag, j);
    }
  }

  /** A store leaves its own line owed a refresh and no other. */
  lemma StoreOwes(lines: seq<Line>, ram: seq<byte>, owed: set<nat>, addr: nat, bytes: seq<byte>)
    requires Kept(lines, ram, owed) && Offset(addr) + |bytes| <= LINE_SIZE && addr + |bytes| <= |ram|
    ensures Kept(lines, D.Spliced(ram, addr, bytes), owed + {Base(addr)})
  {
    LineOf(addr);
    var after := D.Spliced(ram, addr, bytes);
    forall j | 0 <= j < LINES ensures LineKept(lines[j], j, after, owed + {Base(addr)}) {
      assert LineKept(lines[j], j, ram, owed);
      var base := ResidentAddr(lines[j].tag, j);
      ResidentParts(lines[j].tag, j);
      if lines[j].valid && base != Base(addr) {
        AlignedApart(base, Base(addr));
        ElsewhereUntouched(ram, addr, bytes, base);
      }
    }
  }

  lemma ElsewhereUntouched(ram: seq<byte>, addr: nat, bytes: seq<byte>, base: nat)
    requires addr + |bytes| <= |ram| && base + LINE_SIZE <= |ram|
    requires base + LINE_SIZE <= addr || addr + |bytes| <= base
    ensures At(D.Spliced(ram, addr, bytes), base) == At(ram, base)
  {
    var before, after := At(ram, base), At(D.Spliced(ram, addr, bytes), base);
    forall k | 0 <= k < LINE_SIZE ensures after[k] == before[k] {
      assert D.Spliced(ram, addr, bytes)[base + k] == ram[base + k];
    }
  }

  lemma SplicingWhatIsThere(ram: seq<byte>, base: nat)
    requires base + LINE_SIZE <= |ram|
    ensures D.Spliced(ram, base, At(ram, base)) == ram
  {
  }

  // ----- programs

  /** What a program does to the instruction cache and to the memory under it; a `WriteMemory` is a
      write that has reached memory, uncached or written back. */
  datatype Op =
    | Fetch(addr: nat)
    | Fill(addr: nat)
    | HitInvalidate(addr: nat)
    | IndexInvalidate(addr: nat)
    | HitWriteBack(addr: nat)
    | WriteMemory(addr: nat, bytes: seq<byte>)

  predicate Legal(op: Op, size: nat) {
    op.addr < size &&
    (op.Fetch? ==> op.addr % 4 == 0) &&
    (op.WriteMemory? ==> Offset(op.addr) + |op.bytes| <= LINE_SIZE && op.addr + |op.bytes| <= size)
  }

  /** The lines written to and neither filled nor invalidated since. */
  function Owed(ops: seq<Op>): set<nat> {
    if ops == [] then {}
    else
      var n := |ops| - 1;
      OwedAfter(Owed(ops[..n]), ops[n])
  }

  function OwedAfter(owed: set<nat>, op: Op): set<nat> {
    match op
    case WriteMemory(addr, _) => owed + {Base(addr)}
    case Fill(addr) => owed - {Base(addr)}
    case HitInvalidate(addr) => owed - {Base(addr)}
    case IndexInvalidate(addr) => owed - {Base(addr)}
    case _ => owed
  }

  /** The software's side of the bargain: a line written to is refreshed before it is fetched from, or
      written back over its memory. */
  predicate Disciplined(ops: seq<Op>, size: nat) {
    forall n :: 0 <= n < |ops| ==>
      Legal(ops[n], size) &&
      (ops[n].Fetch? || ops[n].HitWriteBack? ==> Base(ops[n].addr) !in Owed(ops[..n]))
  }

  function FlatMemory(m: seq<byte>, ops: seq<Op>): (r: seq<byte>)
    requires forall n :: 0 <= n < |ops| ==> Legal(ops[n], |m|)
    ensures |r| == |m|
  {
    if ops == [] then m
    else
      var n := |ops| - 1;
      assert Legal(ops[n], |m|);
      var before := FlatMemory(m, ops[..n]);
      if ops[n].WriteMemory? then D.Spliced(before, ops[n].addr, ops[n].bytes) else before
  }

  lemma WordFits(addr: nat, size: nat)
    requires addr < size && addr % 4 == 0 && size % LINE_SIZE == 0
    ensures addr + 4 <= size && Offset(addr) + 4 <= LINE_SIZE && Base(addr) + LINE_SIZE <= size
  {
  }

  /** The words the fetches return, in order. */
  function FlatFetches(m: seq<byte>, ops: seq<Op>): seq<nat>
    requires |m| % LINE_SIZE == 0 && forall n :: 0 <= n < |ops| ==> Legal(ops[n], |m|)
  {
    if ops == [] then []
    else
      var n := |ops| - 1;
      assert Legal(ops[n], |m|);
      FlatFetches(m, ops[..n]) +
      if ops[n].Fetch? then
        WordFits(ops[n].addr, |m|);
        [Word(FlatMemory(m, ops[..n])[ops[n].addr..ops[n].addr + 4])]
      else []
  }

  // ----- the fetch path

  class FetchPath {
    const lines: array<Line>
    const ram: array<byte>

    ghost predicate Valid(owed: set<nat>)
      reads lines, ram
    {
      lines.Length == LINES && ram.Length % LINE_SIZE == 0 && Kept(lines[..], ram[..], owed)
    }

    constructor (ram: array<byte>)
      requires ram.Length % LINE_SIZE == 0
      ensures this.ram == ram && Valid({}) && fresh(lines)
    {
      this.ram := ram;
      lines := new Line[LINES](_ => Line(0, false, seq(LINE_SIZE, _ => 0)));
    }

    predicate HitsLine(addr: nat)
      requires lines.Length == LINES
      reads lines
    {
      lines[Index(addr)].valid && lines[Index(addr)].tag == TagOf(addr)
    }

    /** `icache_fill`: an unconditional fill. */
    method Fill(addr: nat, ghost owed: set<nat>)
      requires Valid(owed) && addr < ram.Length
      modifies lines
      ensures Valid(owed - {Base(addr)}) && HitsLine(addr) && HoldsMemory(lines[..], ram[..], addr)
      ensures Filled(old(lines[..]), lines[..], ram[..], addr)
    {
      LineFits(addr, ram.Length);
      hide Index, Base, TagOf, Kept;
      var data := D.PullLine(ram, Base(addr), LINE_SIZE);
      Settles(lines[..], ram[..], owed, addr, Line(TagOf(addr), true, data));
      ghost var was := lines[..];
      lines[Index(addr)] := Line(TagOf(addr), true, data);
      assert lines[..] == was[Index(addr) := Line(TagOf(addr), true, data)];
    }

    /** What a fetch returns is memory's word unless the line is owed a refresh, and always so after a
        miss, which fills the line. */
    method Fetch(addr: nat, ghost owed: set<nat>) returns (word: u32)
      requires Valid(owed) && addr < ram.Length && addr % 4 == 0
      modifies lines
      ensures Valid(owed)
      ensures WellFormed(old(lines[..])) && word == Fetched(old(lines[..]), ram[..], addr)
      ensures old(HitsLine(addr)) ==> lines[..] == old(lines[..])
      ensures !old(HitsLine(addr)) ==> Filled(old(lines[..]), lines[..], ram[..], addr)
      ensures !old(HitsLine(addr)) || Base(addr) !in owed ==>
        addr + 4 <= ram.Length && word == Word(ram[addr..addr + 4])
    {
      WordFits(addr, ram.Length);
      KeptWellFormed(lines[..], ram[..], owed);
      if !HitsLine(addr) {
        Fill(addr, owed);
        KeptWeakens(lines[..], ram[..], owed - {Base(addr)}, owed);
        HitHoldsMemory(lines[..], ram[..], owed - {Base(addr)}, addr);
      } else {
        HitHoldsMemory(lines[..], ram[..], owed, addr);
      }
      assert LineKept(lines[Index(addr)], Index(addr), ram[..], owed);
      if HoldsMemory(lines[..], ram[..], addr) {
        WordOfLine(ram[..], addr);
      }
      word := ReadWord(addr);
    }

    method ReadWord(addr: nat) returns (word: u32)
      requires lines.Length == LINES && |lines[Index(addr)].data| == LINE_SIZE && Offset(addr) + 4 <= LINE_SIZE
      ensures word == Word(lines[Index(addr)].data[Offset(addr)..Offset(addr) + 4])
    {
      var data, o := lines[Index(addr)].data, Offset(addr);
      ghost var chunk := data[o..o + 4];
      EightBytesFit();
      PrefixBound(chunk, 4);
      FourBytes(chunk);
      word := Joined(data[o], data[o + 1], data[o + 2], data[o + 3]);
    }

    /** Clears the valid bit and leaves the tag. */
    method InvalidateIndex(addr: nat, ghost owed: set<nat>)
      requires Valid(owed)
      modifies lines
      ensures Valid(owed - {Base(addr)})
      ensures lines[..] == old(lines[..])[Index(addr) := old(lines[Index(addr)]).(valid := false)]
    {
      ghost var was := lines[..];
      assert LineKept(was[Index(addr)], Index(addr), ram[..], owed);
      Settles(was, ram[..], owed, addr, was[Index(addr)].(valid := false));
      lines[Index(addr)] := lines[Index(addr)].(valid := false);
      assert lines[..] == was[Index(addr) := was[Index(addr)].(valid := false)];
    }

    /** Only a resident line is dropped; either way it can no longer be fetched stale. */
    method HitInvalidate(addr: nat, ghost owed: set<nat>)
      requires Valid(owed)
      modifies lines
      ensures Valid(owed - {Base(addr)}) && !HitsLine(addr)
      ensures lines[..] ==
        if old(HitsLine(addr)) then old(lines[..])[Index(addr) := old(lines[Index(addr)]).(valid := false)]
        else old(lines[..])
    {
      if HitsLine(addr) {
        InvalidateIndex(addr, owed);
      } else {
        AbsentOwesNothing(lines[..], ram[..], owed, addr);
      }
    }

    /** `Hit_Write_Back` puts a resident line over its memory, stale or not; over a line that is owed
        nothing that changes nothing. */
    method HitWriteBack(addr: nat, ghost owed: set<nat>)
      requires Valid(owed)
      modifies ram
      ensures Valid(owed + {Base(addr)})
      ensures HitsLine(addr) ==>
        Base(addr) + LINE_SIZE <= ram.Length &&
        ram[..] == D.Spliced(old(ram[..]), Base(addr), lines[Index(addr)].data)
      ensures !HitsLine(addr) || Base(addr) !in owed ==> ram[..] == old(ram[..])
    {
      if HitsLine(addr) {
        var line := lines[Index(addr)];
        ghost var before := ram[..];
        HitHoldsMemory(lines[..], before, owed, addr);
        AddressParts(addr);
        LineOf(addr);
        StoreOwes(lines[..], before, owed, Base(addr), line.data);
        if Base(addr) !in owed {
          SplicingWhatIsThere(before, Base(addr));
        }
        D.PushLine(ram, ResidentAddr(line.tag, Index(addr)), line.data);
      } else {
        KeptWeakens(lines[..], ram[..], owed, owed + {Base(addr)});
      }
    }

    method StoreBytes(addr: nat, bytes: seq<byte>, ghost owed: set<nat>)
      requires Valid(owed) && Offset(addr) + |bytes| <= LINE_SIZE && addr + |bytes| <= ram.Length
      modifies ram
      ensures Valid(owed + {Base(addr)}) && ram[..] == D.Spliced(old(ram[..]), addr, bytes)
    {
      StoreOwes(lines[..], ram[..], owed, addr, bytes);
      forall k | 0 <= k < |bytes| {
        ram[addr + k] := bytes[k];
      }
      assert ram[..] == D.Spliced(old(ram[..]), addr, bytes);
    }

    /** One operation of a disciplined program. */
    method Do(op: Op, ghost owed: set<nat>) returns (fetched: Option<u32>)
      requires Valid(owed) && Legal(op, ram.Length)
      requires op.Fetch? || op.HitWriteBack? ==> Base(op.addr) !in owed
      modifies lines, ram
      ensures Valid(OwedAfter(owed, op))
      ensures ram[..] == if op.WriteMemory? then D.Spliced(old(ram[..]), op.addr, op.bytes) else old(ram[..])
      ensures fetched ==
        if op.Fetch? then (WordFits(op.addr, ram.Length); Some(Word(old(ram[..])[op.addr..op.addr + 4]))) else None
    {
      fetched := None;
      match op
      case Fetch(addr) =>
        var word := Fetch(addr, owed);
        fetched := Some(word);
      case Fill(addr) => Fill(addr, owed);
      case HitInvalidate(addr) => HitInvalidate(addr, owed);
      case IndexInvalidate(addr) => InvalidateIndex(addr, owed);
      case HitWriteBack(addr) =>
        HitWriteBackClean(addr, owed);
      case WriteMemory(addr, bytes) => StoreBytes(addr, bytes, owed);
    }

    method HitWriteBackClean(addr: nat, ghost owed: set<nat>)
      requires Valid(owed) && Base(addr) !in owed
      modifies ram
      ensures Valid(owed) && ram[..] == old(ram[..])
    {
      HitWriteBack(addr, owed);
    }

    /** Nothing keeps this cache coherent, but a program that refreshes what it writes to before
        fetching it fetches exactly what memory holds, whatever is evicted in between. */
    method Run(ops: seq<Op>) returns (fetches: seq<u32>)
      requires Valid({}) && Disciplined(ops, ram.Length)
      modifies lines, ram
      ensures Valid(Owed(ops))
      ensures ram[..] == FlatMemory(old(ram[..]), ops)
      ensures fetches == FlatFetches(old(ram[..]), ops)
    {
      fetches := [];
      ghost var start := ram[..];
      for n := 0 to |ops|
        invariant Valid(Owed(ops[..n]))
        invariant ram[..] == FlatMemory(start, ops[..n])
        invariant fetches == FlatFetches(start, ops[..n])
      {
        assert Legal(ops[n], ram.Length);
        assert ops[..n + 1][..n] == ops[..n] && ops[..n + 1][n] == ops[n];
        var fetched := Do(ops[n], Owed(ops[..n]));
        if fetched.Some? {
          fetches := fetches + [fetched.value];
        }
      }
      assert ops[..|ops|] == ops;
    }
  }

  lemma LineFits(addr: nat, size: nat)
    requires addr < size && size % LINE_SIZE == 0
    ensures Base(addr) + LINE_SIZE <= size
  {
  }

  lemma KeptWeakens(lines: seq<Line>, ram: seq<byte>, owed: set<nat>, more: set<nat>)
    requires Kept(lines, ram, owed) && owed <= more
    ensures Kept(lines, ram, more)
  {
    forall j | 0 <= j < LINES ensures LineKept(lines[j], j, ram, more) {
      assert LineKept(lines[j], j, ram, owed);
    }
  }

  /** A line that is not resident cannot be stale. */
  lemma AbsentOwesNothing(lines: seq<Line>, ram: seq<byte>, owed: set<nat>, addr: nat)
    requires Kept(lines, ram, owed) && !Hits(lines, addr)
    ensures Kept(lines, ram, owed - {Base(addr)})
  {
    LineOf(addr);
    forall j | 0 <= j < LINES ensures LineKept(lines[j], j, ram, owed - {Base(addr)}) {
      assert LineKept(lines[j], j, ram, owed);
      ResidentParts(lines[j].tag, j);
      if ResidentAddr(lines[j].tag, j) == Base(addr) {
        ResidentTag(lines[j].tag, j, addr);
      }
    }
  }

  lemma ResidentTag(tag: nat, index: nat, addr: nat)
    requires index < LINES && ResidentAddr(tag, index) == Base(addr)
    ensures tag == TagOf(addr)
  {
  }

  lemma WordOfLine(ram: seq<byte>, addr: nat)
    requires Base(addr) + LINE_SIZE <= |ram| && Offset(addr) + 4 <= LINE_SIZE
    ensures At(ram, Base(addr))[Offset(addr)..Offset(addr) + 4] == ram[addr..addr + 4]
  {
    var seen, there := At(ram, Base(addr))[Offset(addr)..Offset(addr) + 4], ram[addr..addr + 4];
    forall k | 0 <= k < 4 ensures seen[k] == there[k] {
    }
  }

  /** Four bytes, most significant first. */
  function Joined(a: int, b: int, c: int, d: int): int {
    ((a * 256 + b) * 256 + c) * 256 + d
  }

  lemma FourBytes(s: seq<byte>)
    requires |s| == 4
    ensures Word(s) == Joined(s[0], s[1], s[2], s[3])
  {
    assert Prefix(s, 0) == 0;
    assert Prefix(s, 1) == Prefix(s, 0) * 256 + s[0];
    assert Prefix(s, 2) == Prefix(s, 1) * 256 + s[1];
    assert Prefix(s, 3) == Prefix(s, 2) * 256 + s[2];
  }
}
