/** The VR4300's 8 KiB write-back data cache over a flat memory, and the pipeline's use of it. */
module DataCache {
  import opened MachineWords
  import opened BigEndian

  const LINE_SIZE: nat := 16
  const LINES: nat := 512
  /** `PState` of a valid data-cache line. */
  const VALID_STATE: nat := 3

  /** A line: its physical frame number, its flags, and its sixteen bytes in memory order. */
  datatype Line = Line(tag: nat, valid: bool, dirty: bool, data: seq<byte>)

  datatype Writeback = Writeback(addr: nat, data: seq<byte>)

  // ----- addresses

  function Index(addr: nat): (i: nat)
    ensures i < LINES
  {
    addr / LINE_SIZE % LINES
  }

  function TagOf(addr: nat): nat {
    addr / 0x1000
  }

  function Offset(addr: nat): (o: nat)
    ensures o < LINE_SIZE
  {
    addr % LINE_SIZE
  }

  function Base(addr: nat): nat {
    addr - addr % LINE_SIZE
  }

  /** Address of the line with this tag at this index: the tag, and the index bits it lacks. */
  function ResidentAddr(tag: nat, index: nat): nat {
    tag * 0x1000 + index * LINE_SIZE % 0x1000
  }

  /** Bit 12 of an address is both the tag's lowest bit and the index's highest: the two must agree. */
  predicate TagFitsIndex(tag: nat, index: nat) {
    tag % 2 == index / 256
  }

  /** An address put together from a frame, a line within the page and a byte within the line. */
  lemma Parts(tag: nat, m: nat, k: nat)
    requires m < 256 && k < LINE_SIZE
    ensures
      var addr := tag * 0x1000 + m * LINE_SIZE + k;
      TagOf(addr) == tag && Offset(addr) == k && Index(addr) == tag % 2 * 256 + m
  {
    var addr := tag * 0x1000 + m * LINE_SIZE + k;
    QuotientUnique(addr, 0x1000, tag, m * LINE_SIZE + k);
    QuotientUnique(addr, LINE_SIZE, tag * 256 + m, k);
    QuotientUnique(tag * 256 + m, LINES, tag / 2, tag % 2 * 256 + m);
  }

  lemma LineWithinPage(index: nat)
    requires index < LINES
    ensures index * LINE_SIZE % 0x1000 == index % 256 * LINE_SIZE
    ensures index == index / 256 * 256 + index % 256
  {
  }

  lemma AddressParts(addr: nat)
    ensures ResidentAddr(TagOf(addr), Index(addr)) == Base(addr)
    ensures TagFitsIndex(TagOf(addr), Index(addr))
  {
    var low := addr % 0x1000;
    var m := low / LINE_SIZE;
    assert low == m * LINE_SIZE + low % LINE_SIZE;
    Parts(TagOf(addr), m, low % LINE_SIZE);
    LineWithinPage(Index(addr));
  }

  /** A tag maps back to the index it sits at exactly when the two agree on bit 12. */
  lemma ResidentAddrRoundTrip(tag: nat, index: nat, k: nat)
    requires index < LINES && k < LINE_SIZE
    ensures Index(ResidentAddr(tag, index) + k) == index <==> TagFitsIndex(tag, index)
    ensures TagOf(ResidentAddr(tag, index) + k) == tag
    ensures Base(ResidentAddr(tag, index) + k) == ResidentAddr(tag, index)
  {
    LineWithinPage(index);
    Parts(tag, index % 256, k);
  }

  // ----- cache and memory as values

  predicate Hits(lines: seq<Line>, addr: nat)
    requires |lines| == LINES
  {
    lines[Index(addr)].valid && lines[Index(addr)].tag == TagOf(addr)
  }

  /** The line can be hit by an address of a memory of this size: it is valid, and its tag names a
      frame of that memory whose lines live at this index. */
  predicate Live(line: Line, index: nat, size: nat) {
    line.valid && TagFitsIndex(line.tag, index) && ResidentAddr(line.tag, index) + LINE_SIZE <= size
  }

  /** A clean line that can be hit equals its memory, and only such a line can be dirty. */
  predicate LineHolds(line: Line, index: nat, ram: seq<byte>) {
    |line.data| == LINE_SIZE &&
    (line.valid && line.dirty ==> Live(line, index, |ram|)) &&
    (Live(line, index, |ram|) && !line.dirty ==> line.data == At(ram, ResidentAddr(line.tag, index)))
  }

  /** Some address hits a valid line exactly when its tag fits its index. */
  lemma HitByIff(line: Line, index: nat)
    requires index < LINES && line.valid
    ensures (exists addr: nat :: Index(addr) == index && TagOf(addr) == line.tag) <==> TagFitsIndex(line.tag, index)
  {
    if TagFitsIndex(line.tag, index) {
      ResidentAddrRoundTrip(line.tag, index, 0);
      assert Index(ResidentAddr(line.tag, index)) == index && TagOf(ResidentAddr(line.tag, index)) == line.tag;
    }
    forall addr: nat | Index(addr) == index && TagOf(addr) == line.tag ensures TagFitsIndex(line.tag, index) {
      AddressParts(addr);
    }
  }

  /** A hit on an address of memory is a hit on a live line. */
  lemma HitIsLive(lines: seq<Line>, addr: nat, size: nat)
    requires |lines| == LINES && Hits(lines, addr) && addr < size && size % LINE_SIZE == 0
    ensures Live(lines[Index(addr)], Index(addr), size)
    ensures ResidentAddr(lines[Index(addr)].tag, Index(addr)) == Base(addr)
  {
    AddressParts(addr);
    LineFits(addr, size);
    hide Index, TagOf, Base, ResidentAddr, TagFitsIndex;
  }

  /** A memory made of whole lines holds the whole of every line it holds a byte of. */
  lemma LineFits(addr: nat, size: nat)
    requires addr < size && size % LINE_SIZE == 0
    ensures Base(addr) + LINE_SIZE <= size
  {
  }

  /** The line-sized window of memory at an address. */
  function At(ram: seq<byte>, base: nat): seq<byte>
    requires base + LINE_SIZE <= |ram|
  {
    ram[base..base + LINE_SIZE]
  }

  predicate WellFormed(lines: seq<Line>) {
    |lines| == LINES && forall i :: 0 <= i < LINES ==> |lines[i].data| == LINE_SIZE
  }

  predicate Coherent(lines: seq<Line>, ram: seq<byte>) {
    WellFormed(lines) && |ram| % LINE_SIZE == 0 && forall i :: 0 <= i < LINES ==> LineHolds(lines[i], i, ram)
  }

  /** The byte the processor sees: the line's if the address hits, memory's otherwise. */
  function LogicalByte(lines: seq<Line>, ram: seq<byte>, addr: nat): byte
    requires WellFormed(lines) && addr < |ram|
  {
    if Hits(lines, addr) then lines[Index(addr)].data[Offset(addr)] else ram[addr]
  }

  /** The flat memory that cache and RAM together stand for. */
  function Logical(lines: seq<Line>, ram: seq<byte>): (m: seq<byte>)
    requires WellFormed(lines)
    ensures |m| == |ram|
    ensures forall a :: 0 <= a < |m| ==> m[a] == LogicalByte(lines, ram, a)
  {
    seq(|ram|, a requires 0 <= a < |ram| => LogicalByte(lines, ram, a))
  }

  function Spliced(m: seq<byte>, at: nat, bytes: seq<byte>): (r: seq<byte>)
    requires at + |bytes| <= |m|
    ensures |r| == |m|
    ensures forall a :: 0 <= a < |m| ==>
      r[a] == if at <= a < at + |bytes| then bytes[a - at] else m[a]
  {
    m[..at] + bytes + m[at + |bytes|..]
  }

  // ----- what each step does to the flat memory

  /** Pushing a dirty line out to where it came from and keeping it changes nothing. */
  lemma WriteBackKeeps(lines: seq<Line>, ram: seq<byte>, i: nat)
    requires Coherent(lines, ram) && i < LINES && lines[i].valid && lines[i].dirty
    ensures
      LineHolds(lines[i], i, ram) &&
      var after := Spliced(ram, ResidentAddr(lines[i].tag, i), lines[i].data);
      var cleaned := lines[i := lines[i].(dirty := false)];
      Coherent(cleaned, after) && Logical(cleaned, after) == Logical(lines, ram)
  {
    assert LineHolds(lines[i], i, ram);
    var base := ResidentAddr(lines[i].tag, i);
    var after := Spliced(ram, base, lines[i].data);
    var cleaned := lines[i := lines[i].(dirty := false)];
    forall j | 0 <= j < LINES ensures LineHolds(cleaned[j], j, after) {
      assert LineHolds(lines[j], j, ram);
      if j != i && Live(lines[j], j, |ram|) {
        DistinctLines(lines[i].tag, i, lines[j].tag, j);
        SplicedElsewhere(ram, base, lines[i].data, ResidentAddr(lines[j].tag, j));
      }
    }
    forall a | 0 <= a < |ram| ensures LogicalByte(cleaned, after, a) == LogicalByte(lines, ram, a) {
      assert Hits(cleaned, a) == Hits(lines, a);
      if base <= a < base + LINE_SIZE {
        ResidentAddrRoundTrip(lines[i].tag, i, a - base);
      }
    }
  }

  /** Two live lines never share a byte of memory. */
  lemma DistinctLines(tag: nat, i: nat, otherTag: nat, j: nat)
    requires i < LINES && j < LINES && i != j
    requires TagFitsIndex(tag, i) && TagFitsIndex(otherTag, j)
    ensures ResidentAddr(tag, i) + LINE_SIZE <= ResidentAddr(otherTag, j)
         || ResidentAddr(otherTag, j) + LINE_SIZE <= ResidentAddr(tag, i)
  {
    var a, b := ResidentAddr(tag, i), ResidentAddr(otherTag, j);
    LineAligned(tag, i);
    LineAligned(otherTag, j);
    ResidentAddrRoundTrip(tag, i, 0);
    ResidentAddrRoundTrip(otherTag, j, 0);
    AlignedApart(a, b);
    hide ResidentAddr, Index, TagOf, TagFitsIndex;
  }

  lemma AlignedApart(a: nat, b: nat)
    requires a % LINE_SIZE == 0 && b % LINE_SIZE == 0 && a != b
    ensures a + LINE_SIZE <= b || b + LINE_SIZE <= a
  {
  }

  lemma LineAligned(tag: nat, i: nat)
    requires i < LINES
    ensures ResidentAddr(tag, i) % LINE_SIZE == 0
  {
    LineWithinPage(i);
  }

  lemma SplicedElsewhere(ram: seq<byte>, base: nat, data: seq<byte>, other: nat)
    requires |data| == LINE_SIZE && base + LINE_SIZE <= |ram| && other + LINE_SIZE <= |ram|
    requires base + LINE_SIZE <= other || other + LINE_SIZE <= base
    ensures At(Spliced(ram, base, data), other) == At(ram, other)
  {
  }

  /** Dropping a line that is clean, or replacing an invalid one, changes nothing. */
  lemma DropKeeps(lines: seq<Line>, ram: seq<byte>, i: nat)
    requires Coherent(lines, ram) && i < LINES && !(lines[i].valid && lines[i].dirty)
    ensures
      var dropped := lines[i := lines[i].(valid := false, dirty := false)];
      Coherent(dropped, ram) && Logical(dropped, ram) == Logical(lines, ram)
  {
    var dropped := lines[i := lines[i].(valid := false, dirty := false)];
    forall j | 0 <= j < LINES ensures LineHolds(dropped[j], j, ram) {
      assert LineHolds(lines[j], j, ram);
    }
    forall a | 0 <= a < |ram| ensures LogicalByte(dropped, ram, a) == LogicalByte(lines, ram, a) {
      if Hits(lines, a) && Index(a) == i {
        HitIsLive(lines, a, |ram|);
        assert LineHolds(lines[i], i, ram);
        assert At(ram, Base(a))[Offset(a)] == ram[a];
      }
    }
  }

  /** Filling an invalid line from memory changes nothing. */
  lemma FillKeeps(lines: seq<Line>, ram: seq<byte>, addr: nat)
    requires Coherent(lines, ram) && Base(addr) + LINE_SIZE <= |ram| && !lines[Index(addr)].valid
    ensures
      var filled := lines[Index(addr) := Line(TagOf(addr), true, false, At(ram, Base(addr)))];
      Coherent(filled, ram) && Logical(filled, ram) == Logical(lines, ram) && Hits(filled, addr)
  {
    var i := Index(addr);
    var filled := lines[i := Line(TagOf(addr), true, false, At(ram, Base(addr)))];
    AddressParts(addr);
    forall j | 0 <= j < LINES ensures LineHolds(filled[j], j, ram) {
      assert LineHolds(lines[j], j, ram);
    }
    forall a | 0 <= a < |ram| ensures LogicalByte(filled, ram, a) == LogicalByte(lines, ram, a) {
      if Hits(filled, a) && Index(a) == i {
        AddressParts(a);
        assert At(ram, Base(a))[Offset(a)] == ram[a];
      }
    }
  }

  /** Bytes written into a resident line are written into the flat memory. */
  lemma WriteUpdates(lines: seq<Line>, ram: seq<byte>, addr: nat, bytes: seq<byte>)
    requires Coherent(lines, ram) && Hits(lines, addr) && addr < |ram| && Offset(addr) + |bytes| <= LINE_SIZE
    ensures
      var i := Index(addr);
      LineHolds(lines[i], i, ram) &&
      var written := lines[i := lines[i].(data := Spliced(lines[i].data, Offset(addr), bytes), dirty := true)];
      addr + |bytes| <= |ram| && Coherent(written, ram) && Hits(written, addr) &&
      Logical(written, ram) == Spliced(Logical(lines, ram), addr, bytes)
  {
    var i := Index(addr);
    var line := lines[i];
    assert LineHolds(line, i, ram);
    var written := lines[i := line.(data := Spliced(line.data, Offset(addr), bytes), dirty := true)];
    HitIsLive(lines, addr, |ram|);
    assert LineHolds(line, i, ram);
    forall j | 0 <= j < LINES ensures LineHolds(written[j], j, ram) {
      assert LineHolds(lines[j], j, ram);
    }
    forall a | 0 <= a < |ram|
      ensures LogicalByte(written, ram, a) == Spliced(Logical(lines, ram), addr, bytes)[a]
    {
      assert Hits(written, a) == Hits(lines, a);
      if Hits(lines, a) && Index(a) == i {
        AddressParts(a);
      } else if addr <= a < addr + |bytes| {
        ResidentAddrRoundTrip(line.tag, i, a - Base(addr));
      }
    }
  }

  /** A resident line's bytes are the flat memory's. */
  lemma ReadSees(lines: seq<Line>, ram: seq<byte>, addr: nat, n: nat)
    requires Coherent(lines, ram) && Hits(lines, addr) && addr < |ram| && Offset(addr) + n <= LINE_SIZE
    ensures addr + n <= |ram| && LineHolds(lines[Index(addr)], Index(addr), ram)
    ensures lines[Index(addr)].data[Offset(addr)..Offset(addr) + n] == Logical(lines, ram)[addr..addr + n]
  {
    var i := Index(addr);
    HitIsLive(lines, addr, |ram|);
    assert LineHolds(lines[i], i, ram);
    var seen, flat := lines[i].data[Offset(addr)..Offset(addr) + n], Logical(lines, ram)[addr..addr + n];
    forall k | 0 <= k < |seen| ensures seen[k] == flat[k] {
      ResidentAddrRoundTrip(lines[i].tag, i, Offset(addr) + k);
      assert flat[k] == LogicalByte(lines, ram, addr + k);
    }
  }

  /** With no line valid the flat memory is the RAM itself. */
  lemma EmptyCacheIsMemory(lines: seq<Line>, ram: seq<byte>)
    requires Coherent(lines, ram) && forall i :: 0 <= i < LINES ==> !lines[i].valid
    ensures Logical(lines, ram) == ram
  {
  }

  // ----- TagLo

  /** A tag and a valid flag in `TagLo` form. The write-back bit has no place in it. */
  function PackTag(tag: nat, valid: bool): nat {
    (if valid then VALID_STATE else 0) * 0x40 + tag % 0x10_0000 * 0x100
  }

  function UnpackedTag(tagLo: u32): nat {
    tagLo / 0x100 % 0x10_0000
  }

  predicate UnpackedValid(tagLo: u32) {
    tagLo / 0x40 % 4 == VALID_STATE
  }

  /** Storing a tag and loading it back keeps the frame number, and keeps `PState` valid exactly
      for the one encoding the data cache defines. */
  lemma TagRoundTrip(tagLo: u32)
    ensures
      var loaded := PackTag(UnpackedTag(tagLo), UnpackedValid(tagLo));
      loaded < TWO_TO_THE_32 &&
      UnpackedTag(loaded) == UnpackedTag(tagLo) && (UnpackedValid(loaded) <==> UnpackedValid(tagLo))
  {
    var frame := UnpackedTag(tagLo);
    var state := if UnpackedValid(tagLo) then VALID_STATE else 0;
    var loaded := state * 0x40 + frame * 0x100;
    QuotientUnique(frame, 0x10_0000, 0, frame);
    QuotientUnique(loaded, 0x100, frame, state * 0x40);
    QuotientUnique(loaded, 0x40, frame * 4 + state, 0);
    QuotientUnique(frame * 4 + state, 4, frame, state);
  }

  /** The word that names an address: its frame from bit 8 up, and `PState` 3, both bits set, in bits 7
      and 6. It is what a load shows of the address's line, and what a store makes resident; with
      either bit clear the line is not valid. */
  lemma TagLoNamesTheFrame(addr: u32, state: nat)
    requires state < 4
    ensures
      var tagLo := addr / 0x1000 * 0x100 + state * 0x40;
      tagLo < TWO_TO_THE_32 && UnpackedTag(tagLo) == TagOf(addr) && (UnpackedValid(tagLo) <==> state == 3) &&
      (state == 3 ==> tagLo == PackTag(TagOf(addr), true)) &&
      (state == 0 ==> tagLo == PackTag(TagOf(addr), false))
  {
    var frame := addr / 0x1000;
    var tagLo := frame * 0x100 + state * 0x40;
    QuotientUnique(tagLo, 0x100, frame, state * 0x40);
    QuotientUnique(tagLo, 0x40, frame * 4 + state, 0);
    QuotientUnique(frame * 4 + state, 4, frame, state);
    QuotientUnique(frame, 0x10_0000, 0, frame);
  }

  // ----- the cache

  class Dcache {
    const lines: array<Line>

    ghost predicate Shaped()
      reads lines
    {
      lines.Length == LINES && forall i :: 0 <= i < LINES ==> |lines[i].data| == LINE_SIZE
    }

    constructor ()
      ensures Shaped() && fresh(lines)
      ensures forall i :: 0 <= i < LINES ==> lines[i] == Line(0, false, false, seq(LINE_SIZE, _ => 0))
    {
      lines := new Line[LINES](_ => Line(0, false, false, seq(LINE_SIZE, _ => 0)));
    }

    predicate HitsLine(addr: u32)
      requires lines.Length == LINES
      reads lines
    {
      lines[Index(addr)].valid && lines[Index(addr)].tag == TagOf(addr)
    }

    /** What must happen before `addr` can be accessed: nothing on a hit, and otherwise a fill,
        after writing back the line it evicts if that is dirty. */
    method MissPlan(addr: u32) returns (plan: Option<Option<Writeback>>)
      requires Shaped()
      ensures
        var line := lines[Index(addr)];
        plan == if HitsLine(addr) then None
                else if line.valid && line.dirty
                then Some(Some(Writeback(ResidentAddr(line.tag, Index(addr)), line.data)))
                else Some(None)
    {
      var i := Index(addr);
      if lines[i].valid && lines[i].tag == TagOf(addr) {
        return None;
      }
      if lines[i].valid && lines[i].dirty {
        return Some(Some(Writeback(ResidentAddr(lines[i].tag, i), lines[i].data)));
      }
      return Some(None);
    }

    method Install(addr: u32, data: seq<byte>)
      requires Shaped() && |data| == LINE_SIZE
      modifies lines
      ensures Shaped() && lines[..] == old(lines[..])[Index(addr) := Line(TagOf(addr), true, false, data)]
    {
      lines[Index(addr)] := Line(TagOf(addr), true, false, data);
    }

    /** The len bytes at `addr` of a resident line, as a 64-bit word. */
    method Read(addr: u32, len: nat) returns (v: u64)
      requires Shaped() && len <= 8 && Offset(addr) + len <= LINE_SIZE
      ensures v == Word(lines[Index(addr)].data[Offset(addr)..Offset(addr) + len])
    {
      var i, o := Index(addr), Offset(addr);
      ghost var bytes := lines[i].data[o..o + len];
      EightBytesFit();
      v := 0;
      for k := 0 to len
        invariant v == Prefix(bytes, k)
      {
        PrefixBound(bytes, k + 1);
        Pow256Monotone(k + 1, 8);
        v := v * 256 + lines[i].data[o + k];
      }
    }

    /** The low len bytes of a value into a resident line, which becomes dirty. */
    method Write(addr: u32, len: nat, value: u64)
      requires Shaped() && len <= 8 && Offset(addr) + len <= LINE_SIZE
      modifies lines
      ensures Shaped()
      ensures
        var line := old(lines[Index(addr)]);
        lines[..] == old(lines[..])[Index(addr) :=
          line.(data := Spliced(line.data, Offset(addr), Bytes(value, len)), dirty := true)]
    {
      var i, o := Index(addr), Offset(addr);
      var data := lines[i].data;
      for k := 0 to len
        invariant |data| == LINE_SIZE
        invariant forall j :: 0 <= j < LINE_SIZE ==>
          data[j] == if o <= j < o + k then ByteOf(value, len, j - o) else lines[i].data[j]
      {
        data := data[o + k := ByteOf(value, len, k)];
      }
      assert data == Spliced(lines[i].data, o, Bytes(value, len));
      lines[i] := lines[i].(data := data);
      lines[i] := lines[i].(dirty := true);
    }

    method LoadTag(addr: u32) returns (tagLo: nat)
      requires Shaped()
      ensures tagLo == PackTag(lines[Index(addr)].tag, lines[Index(addr)].valid)
    {
      tagLo := PackTag(lines[Index(addr)].tag, lines[Index(addr)].valid);
    }

    method StoreTag(addr: u32, tagLo: u32)
      requires Shaped()
      modifies lines
      ensures Shaped()
      ensures lines[..] == old(lines[..])[Index(addr) :=
        Line(UnpackedTag(tagLo), UnpackedValid(tagLo), false, old(lines[Index(addr)].data))]
    {
      var i := Index(addr);
      lines[i] := lines[i].(tag := UnpackedTag(tagLo));
      lines[i] := lines[i].(valid := UnpackedValid(tagLo));
      lines[i] := lines[i].(dirty := false);
    }

    /** Take the line at this index for write-back if it is dirty; optionally clean or invalidate it.
        Invalidating keeps the tag. */
    method FlushIndex(addr: u32, invalidate: bool, clean: bool) returns (out: Option<Writeback>)
      requires Shaped()
      modifies lines
      ensures Shaped()
      ensures
        var line := old(lines[Index(addr)]);
        out == (if line.valid && line.dirty
                then Some(Writeback(ResidentAddr(line.tag, Index(addr)), line.data)) else None) &&
        lines[..] == old(lines[..])[Index(addr) :=
          line.(valid := line.valid && !invalidate, dirty := line.dirty && !clean && !invalidate)]
    {
      var i := Index(addr);
      out := if lines[i].valid && lines[i].dirty
             then Some(Writeback(ResidentAddr(lines[i].tag, i), lines[i].data)) else None;
      if clean {
        lines[i] := lines[i].(dirty := false);
      }
      if invalidate {
        lines[i] := lines[i].(valid := false, dirty := false);
      }
    }

    /** Claim the line for `addr` without filling it; its bytes are whatever the old line held. */
    method CreateDirtyExclusive(addr: u32) returns (out: Option<Writeback>)
      requires Shaped()
      modifies lines
      ensures Shaped()
      ensures
        var line := old(lines[Index(addr)]);
        out == (if line.valid && line.dirty && line.tag != TagOf(addr)
                then Some(Writeback(ResidentAddr(line.tag, Index(addr)), line.data)) else None) &&
        lines[..] == old(lines[..])[Index(addr) := Line(TagOf(addr), true, true, line.data)]
    {
      var i := Index(addr);
      out := if lines[i].valid && lines[i].dirty && lines[i].tag != TagOf(addr)
             then Some(Writeback(ResidentAddr(lines[i].tag, i), lines[i].data)) else None;
      lines[i] := lines[i].(tag := TagOf(addr));
      lines[i] := lines[i].(valid := true);
      lines[i] := lines[i].(dirty := true);
    }
  }

  // ----- the memory behind it

  /** The bus moves words: a line goes out four bytes at a time. */
  method WriteWord(ram: array<byte>, addr: nat, value: u32)
    requires addr + 4 <= ram.Length
    modifies ram
    ensures ram[..] == Spliced(old(ram[..]), addr, Bytes(value, 4))
  {
    ram[addr] := ByteOf(value, 4, 0);
    ram[addr + 1] := ByteOf(value, 4, 1);
    ram[addr + 2] := ByteOf(value, 4, 2);
    ram[addr + 3] := ByteOf(value, 4, 3);
  }

  method PushLine(ram: array<byte>, addr: nat, data: seq<byte>)
    requires |data| % 4 == 0 && addr + |data| <= ram.Length
    modifies ram
    ensures ram[..] == Spliced(old(ram[..]), addr, data)
  {
    hide Spliced;
    SpliceNothing(ram[..], addr, data);
    for k := 0 to |data| / 4
      invariant ram[..] == Spliced(old(ram[..]), addr, data[..4 * k])
    {
      var chunk := data[4 * k..4 * (k + 1)];
      assert data[..4 * k] + chunk == data[..4 * (k + 1)];
      SpliceOneMore(old(ram[..]), addr, data[..4 * k], chunk);
      PushChunk(ram, addr + 4 * k, chunk);
    }
    assert data[..4 * (|data| / 4)] == data;
  }

  method PushChunk(ram: array<byte>, addr: nat, chunk: seq<byte>)
    requires |chunk| == 4 && addr + 4 <= ram.Length
    modifies ram
    ensures ram[..] == Spliced(old(ram[..]), addr, chunk)
  {
    EightBytesFit();
    PrefixBound(chunk, 4);
    ReadWordSplitsBack(chunk);
    WriteWord(ram, addr, Word(chunk));
  }

  lemma SpliceNothing(m: seq<byte>, at: nat, data: seq<byte>)
    requires at <= |m|
    ensures Spliced(m, at, data[..0]) == m
  {
  }

  lemma SpliceOneMore(m: seq<byte>, at: nat, done: seq<byte>, chunk: seq<byte>)
    requires at + |done| + |chunk| <= |m|
    ensures Spliced(Spliced(m, at, done), at + |done|, chunk) == Spliced(m, at, done + chunk)
  {
  }

  method PullLine(ram: array<byte>, addr: nat, size: nat) returns (data: seq<byte>)
    requires size % 4 == 0 && addr + size <= ram.Length
    ensures data == ram[addr..addr + size]
  {
    data := [];
    for k := 0 to size / 4
      invariant data == ram[addr..addr + 4 * k]
    {
      ghost var chunk := ram[addr + 4 * k..addr + 4 * k + 4];
      var word := ReadWord(ram, addr + 4 * k);
      ReadWordSplitsBack(chunk);
      data := data + Bytes(word, 4);
    }
  }

  method ReadWord(ram: array<byte>, addr: nat) returns (word: u32)
    requires addr + 4 <= ram.Length
    ensures word == Word(ram[addr..addr + 4])
  {
    ghost var chunk := ram[addr..addr + 4];
    EightBytesFit();
    PrefixBound(chunk, 4);
    var high: int := ram[addr];
    high := high * 256 + ram[addr + 1];
    assert high == Prefix(chunk, 2);
    high := high * 256 + ram[addr + 2];
    assert high == Prefix(chunk, 3);
    word := high * 256 + ram[addr + 3];
  }
}
