/** The pipeline's data path: loads and stores through the write-back cache, fills, evictions and
    the CACHE operations, against the flat memory they stand for. */
module CachedMemory {
  import opened MachineWords
  import opened BigEndian
  import opened DataCache

  // ----- the flat memory

  function FlatLoad(m: seq<byte>, addr: nat, len: nat): nat
    requires addr + len <= |m|
  {
    Word(m[addr..addr + len])
  }

  function FlatStore(m: seq<byte>, addr: nat, len: nat, value: nat): (r: seq<byte>)
    requires addr + len <= |m|
    ensures |r| == |m|
  {
    Spliced(m, addr, Bytes(value, len))
  }

  /** What was stored is loaded back, and a load elsewhere does not notice the store. */
  lemma FlatLoadAfterStore(m: seq<byte>, addr: nat, len: nat, value: nat, other: nat, n: nat)
    requires addr + len <= |m| && other + n <= |m|
    ensures FlatLoad(FlatStore(m, addr, len, value), addr, len) == value % Pow256(len)
    ensures other + n <= addr || addr + len <= other ==>
      FlatLoad(FlatStore(m, addr, len, value), other, n) == FlatLoad(m, other, n)
  {
    SplicedSlices(m, addr, Bytes(value, len), other, n);
    WrittenWordReadsBack(value, len);
    hide Spliced, Bytes, Word;
  }

  lemma SplicedSlices(m: seq<byte>, addr: nat, data: seq<byte>, other: nat, n: nat)
    requires addr + |data| <= |m| && other + n <= |m|
    ensures Spliced(m, addr, data)[addr..addr + |data|] == data
    ensures other + n <= addr || addr + |data| <= other ==>
      Spliced(m, addr, data)[other..other + n] == m[other..other + n]
  {
    var after := Spliced(m, addr, data);
    if other + n <= addr || addr + |data| <= other {
      var before, window := m[other..other + n], after[other..other + n];
      forall k | 0 <= k < n
        ensures window[k] == before[k]
      {
        assert after[other + k] == m[other + k];
      }
    }
  }

  /** What a program does to memory; the write-backs are invisible to it. */
  datatype Op =
    | Load(addr: nat, len: nat)
    | Store(addr: nat, len: nat, value: u64)
    | HitWriteBack(addr: nat)
    | HitWriteBackInvalidate(addr: nat)
    | IndexWriteBackInvalidate(addr: nat)

  /** Accesses are naturally aligned to their own width, and stay in memory. */
  predicate Legal(op: Op, size: nat) {
    op.addr < TWO_TO_THE_32 &&
    (op.Load? || op.Store? ==> op.len in {1, 2, 4, 8} && op.addr % op.len == 0 && op.addr + op.len <= size)
  }

  function FlatMemory(m: seq<byte>, ops: seq<Op>): (r: seq<byte>)
    requires forall i :: 0 <= i < |ops| ==> Legal(ops[i], |m|)
    ensures |r| == |m|
  {
    if ops == [] then m
    else
      var n := |ops| - 1;
      var before := FlatMemory(m, ops[..n]);
      assert Legal(ops[n], |m|);
      if ops[n].Store? then FlatStore(before, ops[n].addr, ops[n].len, ops[n].value) else before
  }

  /** The values the loads return, in order. */
  function FlatResults(m: seq<byte>, ops: seq<Op>): seq<nat>
    requires forall i :: 0 <= i < |ops| ==> Legal(ops[i], |m|)
  {
    if ops == [] then []
    else
      var n := |ops| - 1;
      assert Legal(ops[n], |m|);
      FlatResults(m, ops[..n])
      + if ops[n].Load? then [FlatLoad(FlatMemory(m, ops[..n]), ops[n].addr, ops[n].len)] else []
  }

  lemma AlignedAccessFits(addr: nat, len: nat)
    requires len in {1, 2, 4, 8} && addr % len == 0
    ensures Offset(addr) + len <= LINE_SIZE
  {
  }

  lemma HalvesLegal(addr: u32, high: u64, low: u64, size: nat)
    requires addr % LINE_SIZE == 0 && addr + LINE_SIZE <= size <= TWO_TO_THE_32
    ensures Legal(Op.Store(addr, 8, high), size) && Legal(Op.Store(addr + 8, 8, low), size)
  {
    var line := addr / LINE_SIZE;
    QuotientUnique(addr, 8, 2 * line, 0);
    QuotientUnique(addr + 8, 8, 2 * line + 1, 0);
    assert addr == line * LINE_SIZE;
  }

  /** At most the line addr selects changed, and if it did it is clean now. */
  predicate OnlyCleans(was: seq<Line>, now: seq<Line>, addr: nat) {
    |was| == |now| == LINES &&
    forall j :: 0 <= j < LINES && now[j] != was[j] ==> j == Index(addr) && !now[j].dirty
  }

  /** The line addr selects, given up. */
  function Emptied(lines: seq<Line>, addr: nat): (e: seq<Line>)
    requires |lines| == LINES
    ensures |e| == LINES && !e[Index(addr)].valid
  {
    lines[Index(addr) := lines[Index(addr)].(valid := false, dirty := false)]
  }

  // ----- the data path

  class DataPath {
    const dcache: Dcache
    const ram: array<byte>

    ghost predicate Valid()
      reads dcache.lines, ram
    {
      dcache.Shaped() && ram.Length % LINE_SIZE == 0 && ram.Length <= TWO_TO_THE_32 &&
      Coherent(dcache.lines[..], ram[..])
    }

    /** The flat memory that cache and RAM stand for. */
    ghost function Flat(): seq<byte>
      requires Valid()
      reads dcache.lines, ram
    {
      Logical(dcache.lines[..], ram[..])
    }

    constructor (ram: array<byte>)
      requires ram.Length % LINE_SIZE == 0 && ram.Length <= TWO_TO_THE_32
      ensures this.ram == ram && Valid() && fresh(dcache.lines)
      ensures Flat() == ram[..] && forall i :: 0 <= i < LINES ==> !dcache.lines[i].valid
    {
      var fresh' := new Dcache();
      this.dcache := fresh';
      this.ram := ram;
      new;
      EmptyCacheIsMemory(dcache.lines[..], ram[..]);
    }

    /** `dcache_fill`: write back what is evicted, pull the line, install it. Invisible. */
    method Fill(addr: u32)
      requires Valid() && addr < ram.Length
      modifies dcache.lines, ram
      ensures Valid() && Flat() == old(Flat()) && dcache.HitsLine(addr)
      ensures OnlyCleans(old(dcache.lines[..]), dcache.lines[..], addr)
    {
      var hit := WriteBackEvicted(addr);
      if hit {
        return;
      }
      LineFits(addr, ram.Length);
      hide Logical, Coherent, Base, TagOf, Index;
      ghost var was := dcache.lines[..];
      FillKeeps(Emptied(was, addr), ram[..], addr);
      var data := PullLine(ram, Base(addr), LINE_SIZE);
      dcache.Install(addr, data);
      assert dcache.lines[..] ==
        Emptied(was, addr)[Index(addr) := Line(TagOf(addr), true, false, At(ram[..], Base(addr)))];
    }

    /** The first half of a fill: on a miss, a dirty line in the way goes to memory, after which the
        line can be given up. */
    method WriteBackEvicted(addr: u32) returns (hit: bool)
      requires Valid() && addr < ram.Length
      modifies ram
      ensures hit <==> dcache.HitsLine(addr)
      ensures hit ==> ram[..] == old(ram[..])
      ensures !hit ==>
        Coherent(Emptied(dcache.lines[..], addr), ram[..]) &&
        Logical(Emptied(dcache.lines[..], addr), ram[..]) == old(Flat())
    {
      ghost var i, was := Index(addr), dcache.lines[..];
      var plan := dcache.MissPlan(addr);
      if plan == None {
        return true;
      }
      ghost var cleaned := was;
      if plan.value.Some? {
        WriteBackKeeps(was, ram[..], i);
        cleaned := was[i := was[i].(dirty := false)];
        assert LineHolds(was[i], i, ram[..]);
        PushLine(ram, plan.value.value.addr, plan.value.value.data);
      }
      DropKeeps(cleaned, ram[..], i);
      assert cleaned[i := cleaned[i].(valid := false, dirty := false)] == Emptied(was, addr);
      hide Logical, Coherent, Base, TagOf;
      return false;
    }

    /** A cached load sees the flat memory. */
    method Load(addr: u32, len: nat) returns (v: u64)
      requires Valid() && Legal(Op.Load(addr, len), ram.Length)
      modifies dcache.lines, ram
      ensures Valid() && Flat() == old(Flat())
      ensures v == FlatLoad(Flat(), addr, len)
      ensures OnlyCleans(old(dcache.lines[..]), dcache.lines[..], addr)
    {
      AlignedAccessFits(addr, len);
      Fill(addr);
      ReadSees(dcache.lines[..], ram[..], addr, len);
      v := dcache.Read(addr, len);
    }

    /** A cached store allocates, and updates the flat memory. */
    method Store(addr: u32, len: nat, value: u64)
      requires Valid() && Legal(Op.Store(addr, len, value), ram.Length)
      modifies dcache.lines, ram
      ensures Valid() && Flat() == FlatStore(old(Flat()), addr, len, value)
      ensures dcache.HitsLine(addr)
      ensures forall j :: 0 <= j < LINES && j != Index(addr) ==> dcache.lines[j] == old(dcache.lines[j])
    {
      AlignedAccessFits(addr, len);
      Fill(addr);
      WriteUpdates(dcache.lines[..], ram[..], addr, Bytes(value, len));
      dcache.Write(addr, len, value);
    }

    /** Flush the line an address selects and perform the write-back it asks for. Invisible, as
        long as the line is either kept and cleaned or dropped. */
    method Flush(addr: u32, invalidate: bool)
      requires Valid()
      modifies dcache.lines, ram
      ensures Valid() && Flat() == old(Flat())
      ensures !dcache.lines[Index(addr)].dirty && (invalidate ==> !dcache.lines[Index(addr)].valid)
      ensures forall j :: 0 <= j < LINES && j != Index(addr) ==> dcache.lines[j] == old(dcache.lines[j])
    {
      ghost var i, was := Index(addr), dcache.lines[..];
      var out := dcache.FlushIndex(addr, invalidate, !invalidate);
      ghost var cleaned := was;
      assert LineHolds(was[i], i, ram[..]);
      if out.Some? {
        WriteBackKeeps(was, ram[..], i);
        cleaned := was[i := was[i].(dirty := false)];
        PushLine(ram, out.value.addr, out.value.data);
      } else if was[i].valid {
        cleaned := was;
      }
      DropKeeps(cleaned, ram[..], i);
      if invalidate {
        assert dcache.lines[..] == cleaned[i := cleaned[i].(valid := false, dirty := false)];
      } else if was[i].valid {
        assert dcache.lines[..] == cleaned;
      } else {
        assert dcache.lines[..] == cleaned[i := cleaned[i].(valid := false, dirty := false)];
      }
    }

    method HitWriteBack(addr: u32)
      requires Valid()
      modifies dcache.lines, ram
      ensures Valid() && Flat() == old(Flat())
      ensures OnlyCleans(old(dcache.lines[..]), dcache.lines[..], addr)
      ensures dcache.HitsLine(addr) ==> !dcache.lines[Index(addr)].dirty
    {
      if dcache.HitsLine(addr) {
        Flush(addr, false);
      }
    }

    method HitWriteBackInvalidate(addr: u32)
      requires Valid()
      modifies dcache.lines, ram
      ensures Valid() && Flat() == old(Flat()) && !dcache.HitsLine(addr)
      ensures OnlyCleans(old(dcache.lines[..]), dcache.lines[..], addr)
    {
      if dcache.HitsLine(addr) {
        Flush(addr, true);
      }
    }

    method IndexWriteBackInvalidate(addr: u32)
      requires Valid()
      modifies dcache.lines, ram
      ensures Valid() && Flat() == old(Flat()) && !dcache.lines[Index(addr)].valid
      ensures OnlyCleans(old(dcache.lines[..]), dcache.lines[..], addr)
    {
      Flush(addr, true);
    }

    /** Any program of loads, stores and write-backs, whatever it evicts and refills on the way,
        returns what a flat big-endian memory returns and leaves the memory it leaves. */
    method Run(ops: seq<Op>) returns (results: seq<nat>)
      requires Valid() && forall i :: 0 <= i < |ops| ==> Legal(ops[i], ram.Length)
      modifies dcache.lines, ram
      ensures Valid() && Flat() == FlatMemory(old(Flat()), ops)
      ensures results == FlatResults(old(Flat()), ops)
    {
      results := [];
      ghost var start := Flat();
      for n := 0 to |ops|
        invariant Valid()
        invariant Flat() == FlatMemory(start, ops[..n])
        invariant results == FlatResults(start, ops[..n])
      {
        assert ops[..n + 1][..n] == ops[..n];
        match ops[n] {
          case Load(addr, len) =>
            var v := Load(addr, len);
            results := results + [v];
          case Store(addr, len, value) =>
            Store(addr, len, value);
          case HitWriteBack(addr) =>
            HitWriteBack(addr);
          case HitWriteBackInvalidate(addr) =>
            HitWriteBackInvalidate(addr);
          case IndexWriteBackInvalidate(addr) =>
            IndexWriteBackInvalidate(addr);
        }
      }
      assert ops[..|ops|] == ops;
    }

    /** Flushing every index leaves RAM holding what the processor saw. */
    method FlushAll()
      requires Valid()
      modifies dcache.lines, ram
      ensures Valid() && ram[..] == old(Flat()) && Flat() == old(Flat())
    {
      for i := 0 to LINES
        invariant Valid() && Flat() == old(Flat())
        invariant forall j :: 0 <= j < i ==> !dcache.lines[j].valid
      {
        assert Index(LINE_SIZE * i) == i;
        IndexWriteBackInvalidate(LINE_SIZE * i);
      }
      EmptyCacheIsMemory(dcache.lines[..], ram[..]);
    }

    // ----- the operations that are not transparent

    /** `Hit_Invalidate` discards the line: it is invisible exactly when the line was not resident
        or held what memory holds. */
    method HitInvalidate(addr: u32)
      requires Valid() && addr < ram.Length
      modifies dcache.lines
      ensures Valid()
      ensures Flat() == old(Flat()) <==>
        !old(dcache.HitsLine(addr)) || HoldsMemory(old(dcache.lines[..]), ram[..], addr)
      ensures forall a :: 0 <= a < ram.Length ==>
        Flat()[a] == if Base(a) == Base(addr) then ram[a] else old(Flat())[a]
    {
      ghost var was := dcache.lines[..];
      hide Logical, Coherent, Base, TagOf, HoldsMemory;
      if !dcache.HitsLine(addr) {
        NotResidentIsMemory(was, ram[..], addr);
        return;
      }
      DiscardUnseenIff(was, ram[..], addr);
      var _ := dcache.FlushIndex(addr, true, false);
      assert dcache.lines[..] == Emptied(was, addr);
      hide Emptied;
      forall a | 0 <= a < ram.Length
        ensures Flat()[a] == if Base(a) == Base(addr) then ram[a] else old(Flat())[a]
      {
        DiscardShowsMemory(was, ram[..], addr, a);
      }
    }

    /** `Create_Dirty_Exclusive` claims the line with the old line's bytes: the flat memory changes
        in that line alone, to those bytes. */
    method CreateDirtyExclusive(addr: u32)
      requires Valid() && addr < ram.Length
      modifies dcache.lines, ram
      ensures Valid() && dcache.HitsLine(addr)
      ensures Base(addr) + LINE_SIZE <= ram.Length
      ensures Flat() == Spliced(old(Flat()), Base(addr), old(dcache.lines[Index(addr)].data))
    {
      ghost var was, before := dcache.lines[..], ram[..];
      ClaimUpdates(was, before, addr);
      var out := dcache.CreateDirtyExclusive(addr);
      if out.Some? {
        PushLine(ram, out.value.addr, out.value.data);
      }
      assert dcache.lines[..] == Claimed(was, addr) && ram[..] == ClaimedRam(was, before, addr);
    }

    /** What the operation is for: claimed and then overwritten whole, the line never shows the
        stale bytes, and no fill was needed. */
    method OverwriteLine(addr: u32, high: u64, low: u64)
      requires Valid() && addr % LINE_SIZE == 0 && addr + LINE_SIZE <= ram.Length
      modifies dcache.lines, ram
      ensures Valid()
      ensures Flat() == FlatStore(FlatStore(old(Flat()), addr, 8, high), addr + 8, 8, low)
    {
      ghost var before, stale := Flat(), dcache.lines[Index(addr)].data;
      assert Base(addr) == addr by { AddressParts(addr); }
      HalvesLegal(addr, high, low, ram.Length);
      hide Logical, Coherent, Spliced, Bytes, Index, Base, Hits, Legal, At;
      CreateDirtyExclusive(addr);
      assert Flat() == Spliced(before, addr, stale);
      Store(addr, 8, high);
      Store(addr + 8, 8, low);
      OverwriteHides(before, stale, addr, Bytes(high, 8), Bytes(low, 8));
    }

    /** `Index_Store_Tag`. It leaves cache and memory coherent exactly when the tag it stores can hit
        nothing or names memory the line already holds. The processor's view is unchanged exactly
        when the line can be hit by the same addresses as before, or by none whose memory it does
        not hold, before and after. */
    method StoreTag(addr: u32, tagLo: u32)
      requires Valid()
      modifies dcache.lines
      ensures dcache.Shaped() && WellFormed(dcache.lines[..])
      ensures
        var i := Index(addr);
        var was, now := old(dcache.lines[i]), dcache.lines[i];
        now == Line(UnpackedTag(tagLo), UnpackedValid(tagLo), false, was.data) &&
        (Valid() <==> MemoryBehind(now, i, ram[..])) &&
        (Logical(dcache.lines[..], ram[..]) == old(Flat()) <==> RetagUnseen(was, now, i, ram[..])) &&
        (Valid() && Flat() == old(Flat()) <==> MemoryBehind(was, i, ram[..]) && MemoryBehind(now, i, ram[..]))
    {
      ghost var i, was := Index(addr), dcache.lines[..];
      dcache.StoreTag(addr, tagLo);
      ghost var now := Line(UnpackedTag(tagLo), UnpackedValid(tagLo), false, was[i].data);
      assert dcache.lines[..] == was[i := now];
      RetagKeepsCoherenceIff(was, ram[..], i, now);
      RetagUnseenIff(was, ram[..], i, now);
      hide Logical, UnpackedTag, UnpackedValid, MemoryBehind;
      RetagTransparentIff(was, ram[..], i, now);
    }
  }

  // ----- a new tag on an old line

  /** Memory holds what the line shows, for every address that can hit it. */
  predicate MemoryBehind(line: Line, index: nat, ram: seq<byte>) {
    Live(line, index, |ram|) ==> line.data == At(ram, ResidentAddr(line.tag, index))
  }

  /** The change of tag shows nowhere. */
  predicate RetagUnseen(was: Line, now: Line, index: nat, ram: seq<byte>) {
    (Live(was, index, |ram|) && Live(now, index, |ram|) && was.tag == now.tag) ||
    (MemoryBehind(was, index, ram) && MemoryBehind(now, index, ram))
  }

  lemma RetagKeepsCoherenceIff(lines: seq<Line>, ram: seq<byte>, i: nat, now: Line)
    requires Coherent(lines, ram) && i < LINES && now.data == lines[i].data && !now.dirty
    ensures WellFormed(lines[i := now])
    ensures Coherent(lines[i := now], ram) <==> MemoryBehind(now, i, ram)
  {
    var after := lines[i := now];
    assert LineHolds(now, i, ram) <==> MemoryBehind(now, i, ram);
    forall j | 0 <= j < LINES && j != i ensures LineHolds(after[j], j, ram) {
      assert LineHolds(lines[j], j, ram);
    }
    assert Coherent(after, ram) ==> LineHolds(after[i], i, ram);
  }

  /** What an address sees when the line at its index is replaced. */
  lemma SeenThrough(lines: seq<Line>, ram: seq<byte>, i: nat, line: Line, a: nat)
    requires WellFormed(lines) && |ram| % LINE_SIZE == 0 && i < LINES && |line.data| == LINE_SIZE && a < |ram|
    requires Index(a) == i
    ensures LogicalByte(lines[i := line], ram, a)
      == if Live(line, i, |ram|) && line.tag == TagOf(a) then line.data[Offset(a)] else ram[a]
    ensures Live(line, i, |ram|) && line.tag == TagOf(a) ==> ResidentAddr(line.tag, i) == Base(a)
  {
    AddressParts(a);
    LineFits(a, |ram|);
  }

  lemma RetagUnseenIff(lines: seq<Line>, ram: seq<byte>, i: nat, now: Line)
    requires Coherent(lines, ram) && i < LINES && now.data == lines[i].data
    ensures WellFormed(lines[i := now])
    ensures Logical(lines[i := now], ram) == Logical(lines, ram) <==> RetagUnseen(lines[i], now, i, ram)
  {
    var was, after := lines[i], lines[i := now];
    assert lines[i := was] == lines;
    if RetagUnseen(was, now, i, ram) {
      forall a | 0 <= a < |ram| ensures LogicalByte(after, ram, a) == LogicalByte(lines, ram, a) {
        if Index(a) == i {
          SeenThrough(lines, ram, i, was, a);
          SeenThrough(lines, ram, i, now, a);
          LineByte(was, i, ram, a);
          LineByte(now, i, ram, a);
        }
      }
    } else if Logical(after, ram) == Logical(lines, ram) {
      SeenOnlyThroughOne(lines, ram, i, was, now);
      SeenOnlyThroughOne(lines, ram, i, now, was);
    }
  }

  /** A line whose memory holds it shows memory. */
  lemma LineByte(line: Line, i: nat, ram: seq<byte>, a: nat)
    requires |line.data| == LINE_SIZE && a < |ram|
    ensures MemoryBehind(line, i, ram) && Live(line, i, |ram|) && ResidentAddr(line.tag, i) == Base(a) ==>
      line.data[Offset(a)] == ram[a]
  {
    if Live(line, i, |ram|) && ResidentAddr(line.tag, i) == Base(a) {
      assert At(ram, Base(a))[Offset(a)] == ram[a];
    }
  }

  /** If two lines at an index show the same memory, and their tags cannot hit the same addresses,
      then each shows what memory holds. */
  lemma SeenOnlyThroughOne(lines: seq<Line>, ram: seq<byte>, i: nat, line: Line, other: Line)
    requires WellFormed(lines) && |ram| % LINE_SIZE == 0 && i < LINES
    requires |line.data| == LINE_SIZE && |other.data| == LINE_SIZE
    requires Logical(lines[i := line], ram) == Logical(lines[i := other], ram)
    requires !(Live(line, i, |ram|) && Live(other, i, |ram|) && line.tag == other.tag)
    ensures MemoryBehind(line, i, ram)
  {
    if Live(line, i, |ram|) {
      var base := ResidentAddr(line.tag, i);
      var window := At(ram, base);
      forall k | 0 <= k < LINE_SIZE ensures line.data[k] == window[k] {
        ResidentAddrRoundTrip(line.tag, i, k);
        SeenThrough(lines, ram, i, line, base + k);
        SeenThrough(lines, ram, i, other, base + k);
        assert Logical(lines[i := line], ram)[base + k] == LogicalByte(lines[i := line], ram, base + k);
        assert Logical(lines[i := other], ram)[base + k] == LogicalByte(lines[i := other], ram, base + k);
      }
    }
  }

  /** Coherent and unseen together: both tags name memory that holds the line, or hit nothing. */
  lemma RetagTransparentIff(lines: seq<Line>, ram: seq<byte>, i: nat, now: Line)
    requires Coherent(lines, ram) && i < LINES && now.data == lines[i].data && !now.dirty
    ensures MemoryBehind(now, i, ram) && RetagUnseen(lines[i], now, i, ram)
        <==> MemoryBehind(lines[i], i, ram) && MemoryBehind(now, i, ram)
  {
  }

  // ----- the claim as a value

  ghost function Claimed(lines: seq<Line>, addr: nat): seq<Line>
    requires |lines| == LINES
  {
    lines[Index(addr) := Line(TagOf(addr), true, true, lines[Index(addr)].data)]
  }

  ghost function ClaimedRam(lines: seq<Line>, ram: seq<byte>, addr: nat): seq<byte>
    requires Coherent(lines, ram)
  {
    var i := Index(addr);
    assert LineHolds(lines[i], i, ram);
    if lines[i].valid && lines[i].dirty && lines[i].tag != TagOf(addr)
    then Spliced(ram, ResidentAddr(lines[i].tag, i), lines[i].data) else ram
  }

  lemma ClaimUpdates(lines: seq<Line>, ram: seq<byte>, addr: nat)
    requires Coherent(lines, ram) && addr < |ram|
    ensures
      Base(addr) + LINE_SIZE <= |ram| &&
      var after := ClaimedRam(lines, ram, addr);
      LineHolds(lines[Index(addr)], Index(addr), ram) &&
      Coherent(Claimed(lines, addr), after) && Hits(Claimed(lines, addr), addr) &&
      Logical(Claimed(lines, addr), after) == Spliced(Logical(lines, ram), Base(addr), lines[Index(addr)].data)
  {
    assert LineHolds(lines[Index(addr)], Index(addr), ram);
    SameLineAsBase(addr);
    LineFits(addr, |ram|);
    if Hits(lines, addr) {
      ClaimResident(lines, ram, addr);
    } else {
      EvictedIsEmptied(lines, ram, addr);
      var after, emptied := ClaimedRam(lines, ram, addr), Emptied(lines, addr);
      var filled := emptied[Index(addr) := Line(TagOf(addr), true, false, At(after, Base(addr)))];
      FillKeeps(emptied, after, addr);
      ClaimFilled(filled, after, addr, lines[Index(addr)].data);
      assert Claimed(lines, addr) ==
        filled[Index(addr) := filled[Index(addr)].(data := lines[Index(addr)].data, dirty := true)];
      hide Coherent, Logical, Spliced, Base, TagOf, ClaimedRam, LineHolds;
    }
  }

  /** On a miss, a dirty line goes to memory and the line can be given up. */
  lemma EvictedIsEmptied(lines: seq<Line>, ram: seq<byte>, addr: nat)
    requires Coherent(lines, ram) && addr < |ram| && !Hits(lines, addr)
    ensures |ClaimedRam(lines, ram, addr)| == |ram|
    ensures Coherent(Emptied(lines, addr), ClaimedRam(lines, ram, addr))
    ensures Logical(Emptied(lines, addr), ClaimedRam(lines, ram, addr)) == Logical(lines, ram)
  {
    var i := Index(addr);
    var cleaned, after := lines, ram;
    assert LineHolds(lines[i], i, ram);
    if lines[i].valid && lines[i].dirty {
      WriteBackKeeps(lines, ram, i);
      cleaned := lines[i := lines[i].(dirty := false)];
      after := Spliced(ram, ResidentAddr(lines[i].tag, i), lines[i].data);
    }
    assert after == ClaimedRam(lines, ram, addr);
    DropKeeps(cleaned, after, i);
    assert cleaned[i := cleaned[i].(valid := false, dirty := false)] == Emptied(lines, addr);
    hide Coherent, Logical;
  }

  lemma SameLineAsBase(addr: nat)
    ensures Index(Base(addr)) == Index(addr) && TagOf(Base(addr)) == TagOf(addr) && Offset(Base(addr)) == 0
  {
    AddressParts(addr);
    ResidentAddrRoundTrip(TagOf(addr), Index(addr), 0);
  }

  lemma ClaimResident(lines: seq<Line>, ram: seq<byte>, addr: nat)
    requires Coherent(lines, ram) && Hits(lines, addr) && addr < |ram|
    ensures
      Base(addr) + LINE_SIZE <= |ram| && |lines[Index(addr)].data| == LINE_SIZE &&
      Coherent(Claimed(lines, addr), ram) &&
      Logical(Claimed(lines, addr), ram) == Spliced(Logical(lines, ram), Base(addr), lines[Index(addr)].data)
  {
    var i := Index(addr);
    assert LineHolds(lines[i], i, ram);
    SameLineAsBase(addr);
    ClaimFilled(lines, ram, addr, lines[i].data);
    assert Claimed(lines, addr) == lines[i := lines[i].(dirty := true)];
  }

  /** Replacing all the bytes of a resident line replaces them in the flat memory. */
  lemma ClaimFilled(lines: seq<Line>, ram: seq<byte>, addr: nat, data: seq<byte>)
    requires Coherent(lines, ram) && Hits(lines, addr) && addr < |ram| && |data| == LINE_SIZE
    ensures
      var claimed := lines[Index(addr) := lines[Index(addr)].(data := data, dirty := true)];
      Base(addr) + LINE_SIZE <= |ram| && Coherent(claimed, ram) &&
      Logical(claimed, ram) == Spliced(Logical(lines, ram), Base(addr), data)
  {
    SameLineAsBase(addr);
    assert LineHolds(lines[Index(addr)], Index(addr), ram);
    WriteUpdates(lines, ram, Base(addr), data);
    assert Spliced(lines[Index(addr)].data, 0, data) == data;
  }

  lemma OverwriteHides(m: seq<byte>, stale: seq<byte>, addr: nat, high: seq<byte>, low: seq<byte>)
    requires |stale| == LINE_SIZE && |high| == 8 && |low| == 8 && addr + LINE_SIZE <= |m|
    ensures Spliced(Spliced(Spliced(m, addr, stale), addr, high), addr + 8, low)
         == Spliced(Spliced(m, addr, high), addr + 8, low)
  {
  }

  lemma NotResidentIsMemory(lines: seq<Line>, ram: seq<byte>, addr: nat)
    requires Coherent(lines, ram) && addr < |ram| && !Hits(lines, addr)
    ensures forall a :: 0 <= a < |ram| && Base(a) == Base(addr) ==> Logical(lines, ram)[a] == ram[a]
  {
    forall a | 0 <= a < |ram| && Base(a) == Base(addr) ensures Logical(lines, ram)[a] == ram[a] {
      SameLine(a, addr);
    }
  }

  lemma SameLine(a: nat, b: nat)
    ensures Base(a) == Base(b) <==> Index(a) == Index(b) && TagOf(a) == TagOf(b)
  {
    AddressParts(a);
    AddressParts(b);
    if Base(a) == Base(b) {
      ResidentAddrRoundTrip(TagOf(a), Index(a), Offset(b));
      assert b == Base(a) + Offset(b);
    }
  }

  /** The line addr selects holds what memory holds at addr's line. */
  predicate HoldsMemory(lines: seq<Line>, ram: seq<byte>, addr: nat)
    requires |lines| == LINES
  {
    Base(addr) + LINE_SIZE <= |ram| && lines[Index(addr)].data == At(ram, Base(addr))
  }

  lemma DiscardKeeps(lines: seq<Line>, ram: seq<byte>, addr: nat)
    requires Coherent(lines, ram)
    ensures Coherent(Emptied(lines, addr), ram)
  {
    var dropped := Emptied(lines, addr);
    forall j | 0 <= j < LINES ensures LineHolds(dropped[j], j, ram) {
      assert LineHolds(lines[j], j, ram);
    }
  }

  lemma DiscardShowsMemory(lines: seq<Line>, ram: seq<byte>, addr: nat, a: nat)
    requires Coherent(lines, ram) && addr < |ram| && Hits(lines, addr) && a < |ram|
    ensures Logical(Emptied(lines, addr), ram)[a]
      == if Base(a) == Base(addr) then ram[a] else Logical(lines, ram)[a]
  {
    DiscardKeeps(lines, ram, addr);
    SameLine(a, addr);
  }

  /** Throwing a line away goes unseen exactly when it held what memory holds. */
  lemma DiscardUnseenIff(lines: seq<Line>, ram: seq<byte>, addr: nat)
    requires Coherent(lines, ram) && addr < |ram| && Hits(lines, addr)
    ensures Coherent(Emptied(lines, addr), ram)
    ensures Logical(Emptied(lines, addr), ram) == Logical(lines, ram) <==> HoldsMemory(lines, ram, addr)
  {
    var i := Index(addr);
    HitIsLive(lines, addr, |ram|);
    DiscardKeeps(lines, ram, addr);
    RetagUnseenIff(lines, ram, i, lines[i].(valid := false, dirty := false));
    hide Logical, Coherent, Base, TagOf;
  }

  /** A store of tag zero over a dirty line: nothing is incoherent, and what was written is gone. */
  lemma StoreTagLosesAWrite()
    ensures
      var ram: seq<byte> := seq(LINE_SIZE, _ => 0);
      var lines := seq(LINES, i => Line(0, i == 0, i == 0, seq(LINE_SIZE, _ => 1)));
      var after := lines[0 := Line(UnpackedTag(0), UnpackedValid(0), false, lines[0].data)];
      Coherent(lines, ram) && Coherent(after, ram) &&
      Logical(lines, ram)[0] == 1 && Logical(after, ram)[0] == 0
  {
  }
}
