/** Both caches over one memory: stores go into the data cache, fetches come out of the instruction
    cache, and only software connects the two. */
module SplitCaches {
  import opened MachineWords
  import opened BigEndian
  import D = DataCache
  import C = CachedMemory
  import I = InstructionCache

  /** A data access or flush, or an operation of the instruction cache. */
  datatype Op =
    | Data(op: C.Op)
    | Fetch(addr: nat)
    | Fill(addr: nat)
    | HitInvalidate(addr: nat)
    | IndexInvalidate(addr: nat)
    | HitWriteBack(addr: nat)

  predicate Legal(op: Op, size: nat) {
    match op
    case Data(data) => C.Legal(data, size)
    case Fetch(addr) => addr < size && addr % 4 == 0
    case _ => op.addr < size
  }

  // ----- what software owes

  /** Data lines stored to and not written back since, and instruction lines that may hold something
      other than what the processor has stored. */
  datatype Debt = Debt(unwritten: set<nat>, stale: set<nat>)

  /** Memory holds both halves of the instruction line at addr. */
  predicate WrittenBack(debt: Debt, addr: nat) {
    I.Base(addr) !in debt.unwritten && I.Base(addr) + D.LINE_SIZE !in debt.unwritten
  }

  function After(debt: Debt, op: Op): Debt {
    match op
    case Data(Store(addr, _, _)) => Debt(debt.unwritten + {D.Base(addr)}, debt.stale + {I.Base(addr)})
    case Data(Load(_, _)) => debt
    case Data(HitWriteBack(addr)) => debt.(unwritten := debt.unwritten - {D.Base(addr)})
    case Data(HitWriteBackInvalidate(addr)) => debt.(unwritten := debt.unwritten - {D.Base(addr)})
    case Data(IndexWriteBackInvalidate(addr)) => debt.(unwritten := debt.unwritten - {D.Base(addr)})
    case Fetch(addr) => if WrittenBack(debt, addr) then debt else debt.(stale := debt.stale + {I.Base(addr)})
    case Fill(addr) =>
      debt.(stale := if WrittenBack(debt, addr) then debt.stale - {I.Base(addr)} else debt.stale + {I.Base(addr)})
    case HitInvalidate(addr) => debt.(stale := debt.stale - {I.Base(addr)})
    case IndexInvalidate(addr) => debt.(stale := debt.stale - {I.Base(addr)})
    case _ => debt
  }

  function DebtOf(ops: seq<Op>): Debt {
    if ops == [] then Debt({}, {}) else After(DebtOf(ops[..|ops| - 1]), ops[|ops| - 1])
  }

  /** Software's side: before code that was stored is fetched, the data cache has written it back and
      the instruction cache has been filled or invalidated. A fetch needs its own data line written
      back, a write-back of the instruction line needs both. */
  predicate Allowed(debt: Debt, op: Op) {
    match op
    case Fetch(addr) => D.Base(addr) !in debt.unwritten && I.Base(addr) !in debt.stale
    case HitWriteBack(addr) => WrittenBack(debt, addr) && I.Base(addr) !in debt.stale
    case _ => true
  }

  predicate Disciplined(ops: seq<Op>, size: nat) {
    forall n :: 0 <= n < |ops| ==> Legal(ops[n], size) && Allowed(DebtOf(ops[..n]), ops[n])
  }

  // ----- the flat memory

  function Stored(m: seq<byte>, op: Op): (r: seq<byte>)
    requires Legal(op, |m|)
    ensures |r| == |m|
  {
    match op
    case Data(Store(addr, len, value)) => C.FlatStore(m, addr, len, value)
    case _ => m
  }

  /** The value a load or a fetch returns. */
  function Returned(m: seq<byte>, op: Op): Option<nat>
    requires |m| % I.LINE_SIZE == 0 && Legal(op, |m|)
  {
    match op
    case Data(Load(addr, len)) => Some(C.FlatLoad(m, addr, len))
    case Fetch(addr) =>
      I.WordFits(addr, |m|);
      Some(Word(m[addr..addr + 4]))
    case _ => None
  }

  function FlatMemory(m: seq<byte>, ops: seq<Op>): (r: seq<byte>)
    requires forall n :: 0 <= n < |ops| ==> Legal(ops[n], |m|)
    ensures |r| == |m|
  {
    if ops == [] then m
    else
      var n := |ops| - 1;
      assert Legal(ops[n], |m|);
      Stored(FlatMemory(m, ops[..n]), ops[n])
  }

  function FlatResults(m: seq<byte>, ops: seq<Op>): seq<Option<nat>>
    requires |m| % I.LINE_SIZE == 0 && forall n :: 0 <= n < |ops| ==> Legal(ops[n], |m|)
  {
    if ops == [] then []
    else
      var n := |ops| - 1;
      assert Legal(ops[n], |m|);
      FlatResults(m, ops[..n]) + [Returned(FlatMemory(m, ops[..n]), ops[n])]
  }

  // ----- what the data cache has not written back

  /** Every dirty line is among those software knows to be unwritten. */
  predicate DirtyWithin(lines: seq<D.Line>, unwritten: set<nat>)
    requires |lines| == D.LINES
  {
    forall j :: 0 <= j < D.LINES && lines[j].valid && lines[j].dirty ==>
      D.ResidentAddr(lines[j].tag, j) in unwritten
  }

  lemma NothingDirty(lines: seq<D.Line>)
    requires |lines| == D.LINES && forall j :: 0 <= j < D.LINES ==> !lines[j].valid
    ensures DirtyWithin(lines, {})
  {
  }

  /** Memory holds what the processor sees of a line that is not unwritten. */
  lemma WrittenIsMemory(lines: seq<D.Line>, ram: seq<byte>, unwritten: set<nat>, a: nat)
    requires D.Coherent(lines, ram) && DirtyWithin(lines, unwritten) && a < |ram| && D.Base(a) !in unwritten
    ensures D.Logical(lines, ram)[a] == ram[a]
  {
    if D.Hits(lines, a) {
      var i := D.Index(a);
      D.HitIsLive(lines, a, |ram|);
      assert D.LineHolds(lines[i], i, ram);
      assert D.At(ram, D.Base(a))[D.Offset(a)] == ram[a];
    }
  }

  /** An instruction line with both halves written back reads the same from memory. */
  lemma WindowIsFlat(lines: seq<D.Line>, ram: seq<byte>, debt: Debt, addr: nat)
    requires D.Coherent(lines, ram) && DirtyWithin(lines, debt.unwritten) && WrittenBack(debt, addr)
    requires I.Base(addr) + I.LINE_SIZE <= |ram|
    ensures I.At(ram, I.Base(addr)) == I.At(D.Logical(lines, ram), I.Base(addr))
  {
    var flat := D.Logical(lines, ram);
    var there, seen := I.At(ram, I.Base(addr)), I.At(flat, I.Base(addr));
    forall k | 0 <= k < I.LINE_SIZE ensures there[k] == seen[k] {
      HalfOf(addr, k);
      WrittenIsMemory(lines, ram, debt.unwritten, I.Base(addr) + k);
    }
  }

  lemma HalfOf(addr: nat, k: nat)
    requires k < I.LINE_SIZE
    ensures D.Base(I.Base(addr) + k) == I.Base(addr) + if k < D.LINE_SIZE then 0 else D.LINE_SIZE
  {
    I.LineOf(addr);
    var half := I.Base(addr) / I.LINE_SIZE * 2 + if k < D.LINE_SIZE then 0 else 1;
    QuotientUnique(I.Base(addr) + k, D.LINE_SIZE, half, k % D.LINE_SIZE);
  }

  /** A line cleaned or replaced by a clean one adds nothing unwritten. */
  lemma CleaningKeeps(was: seq<D.Line>, now: seq<D.Line>, unwritten: set<nat>, addr: nat)
    requires |was| == D.LINES && DirtyWithin(was, unwritten) && C.OnlyCleans(was, now, addr)
    ensures DirtyWithin(now, unwritten)
  {
    forall j | 0 <= j < D.LINES && now[j].valid && now[j].dirty ensures D.ResidentAddr(now[j].tag, j) in unwritten {
      assert now[j] == was[j];
    }
  }

  /** With the line at addr no longer dirty where it could be resident, it is written back. */
  lemma WriteBackSettles(lines: seq<D.Line>, ram: seq<byte>, unwritten: set<nat>, addr: nat)
    requires D.Coherent(lines, ram) && DirtyWithin(lines, unwritten)
    requires D.Hits(lines, addr) ==> !lines[D.Index(addr)].dirty
    ensures DirtyWithin(lines, unwritten - {D.Base(addr)})
  {
    forall j | 0 <= j < D.LINES && lines[j].valid && lines[j].dirty
      ensures D.ResidentAddr(lines[j].tag, j) in unwritten - {D.Base(addr)}
    {
      assert D.LineHolds(lines[j], j, ram);
      if D.ResidentAddr(lines[j].tag, j) == D.Base(addr) {
        D.ResidentAddrRoundTrip(lines[j].tag, j, 0);
        C.SameLineAsBase(addr);
      }
    }
  }

  lemma StoreUnwrites(was: seq<D.Line>, now: seq<D.Line>, unwritten: set<nat>, addr: nat)
    requires |was| == |now| == D.LINES && DirtyWithin(was, unwritten) && D.Hits(now, addr)
    requires forall j :: 0 <= j < D.LINES && j != D.Index(addr) ==> now[j] == was[j]
    ensures DirtyWithin(now, unwritten + {D.Base(addr)})
  {
    D.AddressParts(addr);
  }

  // ----- what the instruction cache holds

  /** A line filled before its memory was written back is owed another refresh. */
  lemma EarlyFillOwes(lines: seq<I.Line>, m: seq<byte>, stale: set<nat>, addr: nat, data: seq<byte>)
    requires I.Kept(lines, m, stale) && |data| == I.LINE_SIZE && I.Base(addr) + I.LINE_SIZE <= |m|
    ensures I.Kept(lines[I.Index(addr) := I.Line(I.TagOf(addr), true, data)], m, stale + {I.Base(addr)})
  {
    I.AddressParts(addr);
    var filled := lines[I.Index(addr) := I.Line(I.TagOf(addr), true, data)];
    forall j | 0 <= j < I.LINES ensures I.LineKept(filled[j], j, m, stale + {I.Base(addr)}) {
      assert I.LineKept(lines[j], j, m, stale);
    }
  }

  /** Every line there is. */
  function Everything(lines: seq<I.Line>): set<nat> {
    set j | 0 <= j < |lines| :: I.ResidentAddr(lines[j].tag, j)
  }

  /** Against memory itself nothing is promised, so every line is owed a refresh. */
  lemma KeptByEverything(lines: seq<I.Line>, m: seq<byte>, ram: seq<byte>, stale: set<nat>)
    requires I.Kept(lines, m, stale) && |m| == |ram|
    ensures I.Kept(lines, ram, Everything(lines))
  {
    forall j | 0 <= j < I.LINES ensures I.LineKept(lines[j], j, ram, Everything(lines)) {
      assert I.LineKept(lines[j], j, m, stale);
    }
  }

  // ----- what a fetch returns

  /** Caches and memory are in a state that a program with this debt can leave them in. */
  predicate Owing(debt: Debt, dlines: seq<D.Line>, ilines: seq<I.Line>, ram: seq<byte>) {
    D.Coherent(dlines, ram) && |ram| % I.LINE_SIZE == 0 && DirtyWithin(dlines, debt.unwritten) &&
    I.Kept(ilines, D.Logical(dlines, ram), debt.stale)
  }

  /** A fetch from this state returns what the processor has stored. */
  predicate FetchIsRight(debt: Debt, dlines: seq<D.Line>, ilines: seq<I.Line>, ram: seq<byte>, addr: nat)
    requires Owing(debt, dlines, ilines, ram) && addr < |ram| && addr % 4 == 0
  {
    var flat := D.Logical(dlines, ram);
    I.KeptWellFormed(ilines, flat, debt.stale);
    I.WordFits(addr, |ram|);
    I.Fetched(ilines, ram, addr) == C.FlatLoad(flat, addr, 4)
  }

  /** A fetch that software may make returns what was stored, in every state of the debt. */
  lemma FetchIsFlat(debt: Debt, dlines: seq<D.Line>, ilines: seq<I.Line>, ram: seq<byte>, addr: nat)
    requires Owing(debt, dlines, ilines, ram) && addr < |ram| && addr % 4 == 0 && Allowed(debt, Op.Fetch(addr))
    ensures FetchIsRight(debt, dlines, ilines, ram, addr)
  {
    var flat := D.Logical(dlines, ram);
    I.WordFits(addr, |ram|);
    if I.Hits(ilines, addr) {
      I.HitHoldsMemory(ilines, flat, debt.stale, addr);
      I.WordOfLine(flat, addr);
    } else {
      var there, seen := ram[addr..addr + 4], flat[addr..addr + 4];
      forall k | 0 <= k < 4 ensures there[k] == seen[k] {
        SameDataLine(addr, k);
        WrittenIsMemory(dlines, ram, debt.unwritten, addr + k);
      }
      assert there == seen;
    }
  }

  lemma SameDataLine(addr: nat, k: nat)
    requires addr % 4 == 0 && k < 4
    ensures D.Base(addr + k) == D.Base(addr)
  {
    var q := addr / D.LINE_SIZE;
    QuotientUnique(addr + k, D.LINE_SIZE, q, addr % D.LINE_SIZE + k);
  }

  /** The line a miss or a fill installs is settled if its memory is written back, and owed a refresh
      otherwise. */
  lemma FillLeaves(debt: Debt, dlines: seq<D.Line>, ilines: seq<I.Line>, ram: seq<byte>, addr: nat)
    requires Owing(debt, dlines, ilines, ram) && I.Base(addr) + I.LINE_SIZE <= |ram|
    ensures Owing(After(debt, Op.Fill(addr)), dlines, ilines[I.Index(addr) := I.LineFrom(ram, addr)], ram)
  {
    var flat, line := D.Logical(dlines, ram), I.LineFrom(ram, addr);
    if WrittenBack(debt, addr) {
      WindowIsFlat(dlines, ram, debt, addr);
      I.Settles(ilines, flat, debt.stale, addr, line);
    } else {
      EarlyFillOwes(ilines, flat, debt.stale, addr, line.data);
    }
  }

  /** Nothing cached, over a memory of zeros. */
  const NoData: seq<D.Line> := seq(D.LINES, _ => D.Line(0, false, false, Repeated(0, D.LINE_SIZE)))
  const NoCode: seq<I.Line> := seq(I.LINES, _ => I.Line(0, false, Repeated(0, I.LINE_SIZE)))

  function Repeated(value: byte, n: nat): (s: seq<byte>)
    ensures |s| == n && forall k :: 0 <= k < n ==> s[k] == value
  {
    seq(n, _ => value)
  }

  lemma LastByte(s: seq<byte>)
    requires s != []
    ensures Word(s) % 0x100 == s[|s| - 1]
  {
  }

  /** A line stored to and not written back: a miss fetches the memory under it. */
  lemma UnwrittenIsMissed(debt: Debt, addr: nat, size: nat) returns (dlines: seq<D.Line>)
    requires addr < size && addr % 4 == 0 && size % I.LINE_SIZE == 0 && D.Base(addr) in debt.unwritten
    ensures Owing(debt, dlines, NoCode, Repeated(0, size))
    ensures !FetchIsRight(debt, dlines, NoCode, Repeated(0, size), addr)
  {
    var i, ram := D.Index(addr), Repeated(0, size);
    dlines := NoData[i := D.Line(D.TagOf(addr), true, true, Repeated(1, D.LINE_SIZE))];
    D.AddressParts(addr);
    D.LineFits(addr, size);
    assert D.Coherent(dlines, ram);
    assert DirtyWithin(dlines, debt.unwritten);
    var flat := D.Logical(dlines, ram);
    assert I.Kept(NoCode, flat, debt.stale);
    I.WordFits(addr, size);
    SameLine(addr);
    LastByte(flat[addr..addr + 4]);
    LastByte(ram[addr..addr + 4]);
  }

  lemma SameLine(addr: nat)
    requires addr % 4 == 0
    ensures D.Index(addr + 3) == D.Index(addr) && D.TagOf(addr + 3) == D.TagOf(addr)
  {
    SameDataLine(addr, 3);
    D.AddressParts(addr);
    D.ResidentAddrRoundTrip(D.TagOf(addr), D.Index(addr), addr + 3 - D.Base(addr));
  }

  /** A line filled before it was stored to: a hit fetches what was there then. */
  lemma StaleIsHit(debt: Debt, addr: nat, size: nat) returns (ilines: seq<I.Line>)
    requires addr < size && addr % 4 == 0 && size % I.LINE_SIZE == 0 && I.Base(addr) in debt.stale
    ensures Owing(debt, NoData, ilines, Repeated(0, size))
    ensures !FetchIsRight(debt, NoData, ilines, Repeated(0, size), addr)
  {
    var i, ram := I.Index(addr), Repeated(0, size);
    ilines := NoCode[i := I.Line(I.TagOf(addr), true, Repeated(1, I.LINE_SIZE))];
    I.AddressParts(addr);
    I.LineFits(addr, size);
    I.WordFits(addr, size);
    assert D.Coherent(NoData, ram);
    NothingDirty(NoData);
    assert DirtyWithin(NoData, debt.unwritten);
    var flat := D.Logical(NoData, ram);
    assert I.Kept(ilines, flat, debt.stale);
    LastByte(flat[addr..addr + 4]);
    LastByte(ilines[i].data[I.Offset(addr)..I.Offset(addr) + 4]);
  }

  ghost predicate FetchIsAlwaysRight(debt: Debt, addr: nat, size: nat)
    requires addr < size && addr % 4 == 0
  {
    forall dlines, ilines, ram | |ram| == size && Owing(debt, dlines, ilines, ram) ::
      FetchIsRight(debt, dlines, ilines, ram, addr)
  }

  /** The discipline asks of a fetch no more than it must: in every state of a debt the fetch returns
      what was stored, if and only if its own data line is written back and its instruction line is
      not stale. */
  lemma FetchIsAlwaysRightIff(debt: Debt, addr: nat, size: nat)
    requires addr < size && addr % 4 == 0 && size % I.LINE_SIZE == 0
    ensures FetchIsAlwaysRight(debt, addr, size) <==>
      D.Base(addr) !in debt.unwritten && I.Base(addr) !in debt.stale
  {
    hide Owing, FetchIsRight;
    if D.Base(addr) in debt.unwritten {
      var dlines := UnwrittenIsMissed(debt, addr, size);
      assert !FetchIsRight(debt, dlines, NoCode, Repeated(0, size), addr);
    } else if I.Base(addr) in debt.stale {
      var ilines := StaleIsHit(debt, addr, size);
      assert !FetchIsRight(debt, NoData, ilines, Repeated(0, size), addr);
    } else {
      forall dlines, ilines, ram | |ram| == size && Owing(debt, dlines, ilines, ram)
        ensures FetchIsRight(debt, dlines, ilines, ram, addr)
      {
        FetchIsFlat(debt, dlines, ilines, ram, addr);
      }
    }
  }

  /** A word stored in a resident data line. */
  function WithWord(dlines: seq<D.Line>, addr: nat, word: u32): seq<D.Line>
    requires D.WellFormed(dlines) && D.Offset(addr) + 4 <= D.LINE_SIZE
  {
    var line := dlines[D.Index(addr)];
    dlines[D.Index(addr) := line.(data := D.Spliced(line.data, D.Offset(addr), Bytes(word, 4)), dirty := true)]
  }

  /** The store is a store of the flat memory, and leaves its lines unwritten and stale. */
  lemma WordIsStored(debt: Debt, dlines: seq<D.Line>, ilines: seq<I.Line>, ram: seq<byte>, addr: nat, word: u32)
    requires Owing(debt, dlines, ilines, ram) && addr + 4 <= |ram| && addr % 4 == 0 && D.Hits(dlines, addr)
    ensures
      D.Offset(addr) + 4 <= D.LINE_SIZE &&
      var stored := WithWord(dlines, addr, word);
      Owing(After(debt, Data(C.Op.Store(addr, 4, word))), stored, ilines, ram) &&
      D.Logical(stored, ram) == C.FlatStore(D.Logical(dlines, ram), addr, 4, word)
  {
    assert D.WellFormed(dlines);
    hide D.Coherent, D.Logical, D.Spliced, I.Kept, DirtyWithin, D.Index, D.Base, D.TagOf, I.Base, Bytes;
    AccessFitsLine(addr, 4);
    D.WriteUpdates(dlines, ram, addr, Bytes(word, 4));
    StoreUnwrites(dlines, WithWord(dlines, addr, word), debt.unwritten, addr);
    I.StoreOwes(ilines, D.Logical(dlines, ram), debt.stale, addr, Bytes(word, 4));
  }

  /** A word stored over one that was fetched correctly: the fetch still returns the word before it,
      so it stays right exactly when the store changed nothing. */
  lemma FetchMissesStoreIff(debt: Debt, dlines: seq<D.Line>, ilines: seq<I.Line>, ram: seq<byte>, addr: nat,
                            word: u32)
    requires Owing(debt, dlines, ilines, ram) && addr + 4 <= |ram| && addr % 4 == 0 && D.Hits(dlines, addr)
    requires FetchIsRight(debt, dlines, ilines, ram, addr)
    ensures
      D.Offset(addr) + 4 <= D.LINE_SIZE &&
      var after, stored := After(debt, Data(C.Op.Store(addr, 4, word))), WithWord(dlines, addr, word);
      Owing(after, stored, ilines, ram) &&
      (FetchIsRight(after, stored, ilines, ram, addr) <==> word == C.FlatLoad(D.Logical(dlines, ram), addr, 4))
  {
    assert D.WellFormed(dlines);
    hide D.Coherent, D.Logical, I.Kept, DirtyWithin, D.Index, D.Base, D.TagOf, I.Base, I.Fetched;
    WordIsStored(debt, dlines, ilines, ram, addr, word);
    hide After, WithWord, Owing, C.FlatStore, C.FlatLoad;
    StoredWordLoads(D.Logical(dlines, ram), addr, word);
  }

  lemma StoredWordLoads(flat: seq<byte>, addr: nat, word: u32)
    requires addr + 4 <= |flat|
    ensures C.FlatLoad(C.FlatStore(flat, addr, 4, word), addr, 4) == word
  {
    C.FlatLoadAfterStore(flat, addr, 4, word, addr, 4);
    EightBytesFit();
    hide C.FlatLoad, C.FlatStore;
  }

  // ----- the machine

  class SplitCaches {
    const data: C.DataPath
    const code: I.FetchPath

    ghost predicate Valid(debt: Debt)
      reads data.dcache.lines, data.ram, code.lines
    {
      data.Valid() && code.ram == data.ram && code.lines.Length == I.LINES &&
      Owing(debt, data.dcache.lines[..], code.lines[..], data.ram[..])
    }

    constructor (ram: array<byte>)
      requires ram.Length % I.LINE_SIZE == 0 && ram.Length <= TWO_TO_THE_32
      ensures Valid(Debt({}, {})) && data.ram == ram && data.Flat() == ram[..]
      ensures fresh(data.dcache.lines) && fresh(code.lines)
    {
      var d := new C.DataPath(ram);
      var c := new I.FetchPath(ram);
      data, code := d, c;
      new;
      NothingDirty(data.dcache.lines[..]);
      hide *;
    }

    /** A fetch sees what the processor has stored. A miss fills the whole line, which is owed a
        refresh if its other half was not written back. */
    method Fetch(addr: u32, ghost debt: Debt) returns (word: u32)
      requires Valid(debt) && Legal(Op.Fetch(addr), data.ram.Length) && Allowed(debt, Op.Fetch(addr))
      modifies code.lines
      ensures Valid(After(debt, Op.Fetch(addr)))
      ensures Returned(data.Flat(), Op.Fetch(addr)) == Some(word)
    {
      ghost var was, ram, flat := code.lines[..], data.ram[..], data.Flat();
      I.LineFits(addr, |ram|);
      KeptByEverything(was, flat, ram, debt.stale);
      FetchIsFlat(debt, data.dcache.lines[..], was, ram, addr);
      ghost var owed := After(debt, Op.Fetch(addr)).stale;
      if code.HitsLine(addr) {
        I.KeptWeakens(was, flat, debt.stale, owed);
      } else {
        FillLeaves(debt, data.dcache.lines[..], was, ram, addr);
        I.KeptWeakens(was[I.Index(addr) := I.LineFrom(ram, addr)], flat, After(debt, Op.Fill(addr)).stale, owed);
      }
      hide D.Coherent, D.Logical, I.Kept, I.Index, I.Base, I.TagOf, I.Offset, DirtyWithin, Everything, WrittenBack;
      word := code.Fetch(addr, Everything(was));
    }

    /** A fill settles a line whose memory is written back, and leaves any other owed a refresh. */
    method Fill(addr: u32, ghost debt: Debt)
      requires Valid(debt) && addr < data.ram.Length
      modifies code.lines
      ensures Valid(After(debt, Op.Fill(addr)))
    {
      ghost var was, ram, flat := code.lines[..], data.ram[..], data.Flat();
      I.LineFits(addr, |ram|);
      KeptByEverything(was, flat, ram, debt.stale);
      ghost var filled := I.Line(I.TagOf(addr), true, I.At(ram, I.Base(addr)));
      if WrittenBack(debt, addr) {
        WindowIsFlat(data.dcache.lines[..], ram, debt, addr);
        I.Settles(was, flat, debt.stale, addr, filled);
      } else {
        EarlyFillOwes(was, flat, debt.stale, addr, filled.data);
      }
      hide D.Coherent, D.Logical, I.Kept, I.Index, I.Base, I.TagOf, DirtyWithin, Everything, WrittenBack;
      code.Fill(addr, Everything(was));
    }

    method Invalidate(addr: u32, onlyIfResident: bool, ghost debt: Debt)
      requires Valid(debt)
      modifies code.lines
      ensures Valid(debt.(stale := debt.stale - {I.Base(addr)}))
    {
      ghost var was, ram, flat := code.lines[..], data.ram[..], data.Flat();
      KeptByEverything(was, flat, ram, debt.stale);
      ghost var i := I.Index(addr);
      assert I.LineKept(was[i], i, flat, debt.stale);
      I.Settles(was, flat, debt.stale, addr, was[i].(valid := false));
      if !code.HitsLine(addr) {
        I.AbsentOwesNothing(was, flat, debt.stale, addr);
      }
      hide D.Coherent, D.Logical, I.Kept, I.Index, I.Base, I.TagOf, DirtyWithin, Everything;
      if onlyIfResident {
        code.HitInvalidate(addr, Everything(was));
      } else {
        code.InvalidateIndex(addr, Everything(was));
      }
    }

    /** Writing a settled instruction line back over settled memory changes nothing. */
    method HitWriteBack(addr: u32, ghost debt: Debt)
      requires Valid(debt) && addr < data.ram.Length && Allowed(debt, Op.HitWriteBack(addr))
      modifies data.ram
      ensures Valid(debt) && data.Flat() == old(data.Flat())
    {
      ghost var was, ram, flat := code.lines[..], data.ram[..], data.Flat();
      I.LineFits(addr, |ram|);
      KeptByEverything(was, flat, ram, debt.stale);
      WindowIsFlat(data.dcache.lines[..], ram, debt, addr);
      I.SplicingWhatIsThere(ram, I.Base(addr));
      if code.HitsLine(addr) {
        I.HitHoldsMemory(was, flat, debt.stale, addr);
      }
      hide D.Coherent, D.Logical, I.Kept, I.Index, I.Base, I.TagOf, DirtyWithin, Everything, D.Spliced;
      code.HitWriteBack(addr, Everything(was));
      assert data.ram[..] == ram;
    }

    method Load(addr: u32, len: nat, ghost debt: Debt) returns (v: u64)
      requires Valid(debt) && C.Legal(C.Op.Load(addr, len), data.ram.Length)
      modifies data.dcache.lines, data.ram
      ensures Valid(debt) && data.Flat() == old(data.Flat())
      ensures v == C.FlatLoad(data.Flat(), addr, len)
    {
      ghost var was := data.dcache.lines[..];
      hide D.Coherent, D.Logical, I.Kept, DirtyWithin, C.OnlyCleans;
      v := data.Load(addr, len);
      CleaningKeeps(was, data.dcache.lines[..], debt.unwritten, addr);
    }

    /** A store leaves its data line unwritten and its instruction line stale. */
    method Store(addr: u32, len: nat, value: u64, ghost debt: Debt)
      requires Valid(debt) && C.Legal(C.Op.Store(addr, len, value), data.ram.Length)
      modifies data.dcache.lines, data.ram
      ensures Valid(After(debt, Data(C.Op.Store(addr, len, value))))
      ensures data.Flat() == C.FlatStore(old(data.Flat()), addr, len, value)
    {
      ghost var was, flat := data.dcache.lines[..], data.Flat();
      AccessFitsLine(addr, len);
      I.StoreOwes(code.lines[..], flat, debt.stale, addr, Bytes(value, len));
      hide D.Coherent, D.Logical, I.Kept, DirtyWithin, D.Index, D.Base, D.TagOf, I.Base, Bytes, D.Spliced;
      data.Store(addr, len, value);
      StoreUnwrites(was, data.dcache.lines[..], debt.unwritten, addr);
    }

    /** A write-back flush of a data line. */
    method Flush(op: C.Op, ghost debt: Debt)
      requires Valid(debt) && C.Legal(op, data.ram.Length) && !op.Load? && !op.Store?
      modifies data.dcache.lines, data.ram
      ensures Valid(After(debt, Data(op))) && data.Flat() == old(data.Flat())
    {
      ghost var was := data.dcache.lines[..];
      hide D.Coherent, D.Logical, I.Kept, DirtyWithin, D.Index, D.Base, D.TagOf;
      match op {
        case HitWriteBack(addr) => data.HitWriteBack(addr);
        case HitWriteBackInvalidate(addr) => data.HitWriteBackInvalidate(addr);
        case IndexWriteBackInvalidate(addr) => data.IndexWriteBackInvalidate(addr);
      }
      CleaningKeeps(was, data.dcache.lines[..], debt.unwritten, op.addr);
      WriteBackSettles(data.dcache.lines[..], data.ram[..], debt.unwritten, op.addr);
    }

    /** One operation of a disciplined program. */
    method Do(op: Op, ghost debt: Debt) returns (result: Option<nat>)
      requires Valid(debt) && Legal(op, data.ram.Length) && Allowed(debt, op)
      modifies data.dcache.lines, data.ram, code.lines
      ensures Valid(After(debt, op))
      ensures data.Flat() == Stored(old(data.Flat()), op) && result == Returned(old(data.Flat()), op)
    {
      hide D.Coherent, D.Logical, I.Kept, DirtyWithin, WrittenBack, I.Base, D.Base, C.FlatLoad, C.FlatStore;
      result := None;
      match op
      case Data(Load(addr, len)) =>
        var v := Load(addr, len, debt);
        result := Some(v);
      case Data(Store(addr, len, value)) => Store(addr, len, value, debt);
      case Data(flush) => Flush(flush, debt);
      case Fetch(addr) =>
        var word := Fetch(addr, debt);
        result := Some(word);
      case Fill(addr) => Fill(addr, debt);
      case HitInvalidate(addr) => Invalidate(addr, true, debt);
      case IndexInvalidate(addr) => Invalidate(addr, false, debt);
      case HitWriteBack(addr) => HitWriteBack(addr, debt);
    }

    /** Any program that writes stored code back and refreshes it before fetching it gets from every
        load and every fetch what one flat memory would give it. */
    method Run(ops: seq<Op>) returns (results: seq<Option<nat>>)
      requires Valid(Debt({}, {})) && Disciplined(ops, data.ram.Length)
      modifies data.dcache.lines, data.ram, code.lines
      ensures Valid(DebtOf(ops))
      ensures data.Flat() == FlatMemory(old(data.Flat()), ops)
      ensures results == FlatResults(old(data.Flat()), ops)
    {
      results := [];
      ghost var start := data.Flat();
      for n := 0 to |ops|
        invariant Valid(DebtOf(ops[..n]))
        invariant data.Flat() == FlatMemory(start, ops[..n])
        invariant results == FlatResults(start, ops[..n])
      {
        hide D.Coherent, D.Logical, I.Kept, DirtyWithin, After, Stored, Returned, Allowed, Legal;
        assert ops[..n + 1][..n] == ops[..n] && ops[..n + 1][n] == ops[n];
        var result := Do(ops[n], DebtOf(ops[..n]));
        results := results + [result];
      }
      assert ops[..|ops|] == ops;
    }
  }

  lemma AccessFitsLine(addr: nat, len: nat)
    requires len in {1, 2, 4, 8} && addr % len == 0
    ensures I.Offset(addr) + len <= I.LINE_SIZE
  {
  }
}
