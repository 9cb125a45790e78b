/** Exception entry and return on the VR4300's COP0 register file (User's Manual sections 6.3.7
    and 6.4): the epilogue, the NMI that bypasses it, `ERET`, and how they nest.

    Status and Cause are 32-bit registers; the address registers hold 64 bits. */
module Exceptions {

  // ----- exceptions

  datatype Exception =
    | Interrupt
    | AddressError(store: bool)
    | Overflow
    | Syscall
    | Breakpoint
    | Trap
    | ReservedInstruction
    | CoprocessorReserved(unit: bv32)
    | CoprocessorUnusable(unit: bv32)
    | Nmi
    | TlbRefill(store: bool, wide: bool)
    | TlbInvalid(store: bool)
    | TlbModified
    | FloatingPoint

  datatype VectorKind = General | TlbVector | XtlbVector | Reset

  function ExcCode(exc: Exception): bv32 {
    match exc
    case Nmi => 0
    case Interrupt => 0
    case TlbModified => 1
    case TlbRefill(store, _) => if store then 3 else 2
    case TlbInvalid(store) => if store then 3 else 2
    case AddressError(store) => if store then 5 else 4
    case Syscall => 8
    case Breakpoint => 9
    case ReservedInstruction => 10
    case CoprocessorReserved(_) => 10
    case CoprocessorUnusable(_) => 11
    case Overflow => 12
    case Trap => 13
    case FloatingPoint => 15
  }

  /** The coprocessor a fault names; zero for every other exception. */
  function FaultUnit(exc: Exception): bv32 {
    if exc.CoprocessorUnusable? || exc.CoprocessorReserved? then exc.unit & 0x3 else 0
  }

  function KindOf(exc: Exception): VectorKind {
    match exc
    case Nmi => Reset
    case TlbRefill(_, wide) => if wide then XtlbVector else TlbVector
    case _ => General
  }

  predicate WritesBadVAddr(exc: Exception) {
    exc.AddressError? || exc.TlbRefill? || exc.TlbInvalid? || exc.TlbModified?
  }

  // ----- the Status and Cause words

  const STATUS_IE: bv32 := 0x1
  const STATUS_EXL: bv32 := 0x2
  const STATUS_ERL: bv32 := 0x4
  const STATUS_SR: bv32 := 0x10_0000
  const STATUS_TS: bv32 := 0x20_0000
  const STATUS_BEV: bv32 := 0x40_0000
  const CAUSE_BD: bv32 := 0x8000_0000

  /** Every bit Status has; 23 and 19 are wired to zero. */
  const STATUS_MASK: bv32 := 0xFF77_FFFF
  const CAUSE_MASK: bv32 := 0xB000_FF7C

  predicate HasExl(status: bv32) {
    status & STATUS_EXL != 0
  }

  predicate HasErl(status: bv32) {
    status & STATUS_ERL != 0
  }

  predicate HasBd(cause: bv32) {
    cause & CAUSE_BD != 0
  }

  function WithExl(status: bv32): bv32 {
    status | STATUS_EXL
  }

  function WithoutExl(status: bv32): bv32 {
    status & !STATUS_EXL
  }

  function WithoutErl(status: bv32): bv32 {
    status & !STATUS_ERL
  }

  /** An NMI raises ERL, marks a soft reset, selects the bootstrap vectors, and clears TS. */
  function WithNmi(status: bv32): bv32 {
    (status & !STATUS_TS) | STATUS_ERL | STATUS_SR | STATUS_BEV
  }

  /** The bits an NMI leaves behind once its level has been left again. */
  function AfterNmi(status: bv32): bv32 {
    (status & !STATUS_TS) | STATUS_SR | STATUS_BEV
  }

  /** Cause with the code and coprocessor of an exception, everything else kept. */
  function WithCode(cause: bv32, code: bv32, unit: bv32): bv32 {
    (((cause & !0x7C) | (code << 2)) & !0x3000_0000) | (unit << 28)
  }

  function WithBd(cause: bv32, inDelaySlot: bool): bv32 {
    if inDelaySlot then cause | CAUSE_BD else cause & !CAUSE_BD
  }

  lemma ExlSet(s: bv32)
    ensures HasExl(WithExl(s))
  {
  }

  lemma ExlIdempotent(s: bv32)
    requires HasExl(s)
    ensures WithExl(s) == s
  {
  }

  lemma ExlRestored(s: bv32)
    requires !HasExl(s)
    ensures WithoutExl(WithExl(s)) == s
  {
  }

  lemma ExlLeavesErl(s: bv32)
    ensures HasErl(WithExl(s)) == HasErl(s)
  {
  }

  lemma ErlSet(s: bv32)
    ensures HasErl(WithNmi(s))
  {
  }

  lemma NmiLeavesExl(s: bv32)
    ensures HasExl(WithNmi(s)) == HasExl(s)
  {
  }

  lemma NmiIdempotent(s: bv32)
    ensures WithNmi(WithNmi(s)) == WithNmi(s)
  {
  }

  lemma ErlCleared(s: bv32)
    ensures !HasErl(WithoutErl(s))
  {
  }

  lemma NmiUnwound(s: bv32)
    requires !HasExl(s) && !HasErl(s)
    ensures WithoutExl(WithoutErl(WithNmi(WithExl(s)))) == AfterNmi(s)
  {
  }

  lemma CodeLeavesBd(cause: bv32, code: bv32, unit: bv32)
    requires code <= 15 && unit <= 3
    ensures HasBd(WithCode(cause, code, unit)) == HasBd(cause)
  {
  }

  lemma BdWritten(cause: bv32, inDelaySlot: bool)
    ensures HasBd(WithBd(cause, inDelaySlot)) == inDelaySlot
  {
  }

  /** The vector table. A refill taken with EXL already set is not a refill for vectoring. */
  function Vector(status: bv32, kind: VectorKind): bv64 {
    if kind == Reset then 0xFFFF_FFFF_BFC0_0000
    else
      var offset: bv64 :=
        if kind == TlbVector && !HasExl(status) then 0x000
        else if kind == XtlbVector && !HasExl(status) then 0x080
        else 0x180;
      VectorBase(status) + offset
  }

  function VectorBase(status: bv32): bv64 {
    if status & STATUS_BEV != 0 then 0xFFFF_FFFF_BFC0_0200 else 0xFFFF_FFFF_8000_0000
  }

  // ----- the address registers

  /** What a faulting address latches into the registers around it. */
  function ContextFor(context: bv64, bad: bv64): bv64 {
    (context & 0xFFFF_FFFF_FF80_0000) | (((bad >> 13) & 0x7_FFFF) << 4)
  }

  function XContextFor(xContext: bv64, bad: bv64): bv64 {
    (xContext & 0xFFFF_FFFE_0000_0000) | (((bad >> 62) & 0x3) << 31) | (((bad >> 13) & 0x7FF_FFFF) << 4)
  }

  lemma ContextFits(context: bv64, bad: bv64)
    ensures ContextFor(context, bad) & CONTEXT_MASK == ContextFor(context, bad)
  {
  }

  lemma XContextFits(xContext: bv64, bad: bv64)
    ensures XContextFor(xContext, bad) & CONTEXT_MASK == XContextFor(xContext, bad)
  {
  }

  lemma EntryHiFits(entryHi: bv64, bad: bv64)
    ensures EntryHiFor(entryHi, bad) & ENTRY_HI_MASK == EntryHiFor(entryHi, bad)
  {
  }

  /** Context and XContext have no bits 3:0; EntryHi has no Fill field. */
  const CONTEXT_MASK: bv64 := 0xFFFF_FFFF_FFFF_FFF0
  const ENTRY_HI_MASK: bv64 := 0xC000_00FF_FFFF_E0FF

  const VPN2_MASK: bv64 := 0x0000_00FF_FFFF_E000
  const ASID_MASK: bv64 := 0xFF

  function EntryHiFor(entryHi: bv64, bad: bv64): bv64 {
    (entryHi & ASID_MASK) | (bad & VPN2_MASK) | (bad & 0xC000_0000_0000_0000)
  }

  /** Where a handler must resume: the branch, when the fault sat in its delay slot. */
  function Resume(pc: bv64, inDelaySlot: bool): bv64 {
    if inDelaySlot then pc - 4 else pc
  }

  // ----- the register file as a value

  datatype File = File(status: bv32, cause: bv32, epc: bv64, errorEpc: bv64,
                       badVAddr: bv64, context: bv64, xContext: bv64, entryHi: bv64)

  /** An interrupt is recognised: enabled globally, outside both exception levels, unmasked. */
  predicate InterruptPending(f: File) {
    f.status & STATUS_IE != 0 && !HasExl(f.status) && !HasErl(f.status) &&
    ((f.cause >> 8) & 0xFF) & ((f.status >> 8) & 0xFF) != 0
  }

  /** One exception arriving, perhaps while the machine is already inside another. */
  datatype Event = Event(exc: Exception, pc: bv64, inDelaySlot: bool, badVAddr: bv64)

  function NmiEntered(f: File, pc: bv64): File {
    f.(errorEpc := pc, status := WithNmi(f.status))
  }

  function ExceptionEntered(f: File, e: Event): File {
    var coded := WithCode(f.cause, ExcCode(e.exc), FaultUnit(e.exc));
    var outer := !HasExl(f.status);
    var entered := f.(
      status := WithExl(f.status),
      cause := if outer then WithBd(coded, e.inDelaySlot) else coded,
      epc := if outer then Resume(e.pc, e.inDelaySlot) else f.epc);
    if WritesBadVAddr(e.exc) then
      entered.(badVAddr := e.badVAddr, context := ContextFor(f.context, e.badVAddr),
               xContext := XContextFor(f.xContext, e.badVAddr), entryHi := EntryHiFor(f.entryHi, e.badVAddr))
    else entered
  }

  function Entered(f: File, e: Event): File {
    if e.exc.Nmi? then NmiEntered(f, e.pc) else ExceptionEntered(f, e)
  }

  function Returned(f: File): File {
    if HasErl(f.status) then f.(status := WithoutErl(f.status)) else f.(status := WithoutExl(f.status))
  }

  function ReturnAddress(f: File): bv64 {
    if HasErl(f.status) then f.errorEpc else f.epc
  }

  // ----- nesting

  function AllEntered(f: File, events: seq<Event>): File {
    if events == [] then f
    else Entered(AllEntered(f, events[..|events| - 1]), events[|events| - 1])
  }

  /** The pc of the last NMI among the events, or `none` if there was none. */
  function LastNmiPc(events: seq<Event>, none: bv64): bv64 {
    if events == [] then none
    else
      var n := |events| - 1;
      if events[n].exc.Nmi? then events[n].pc else LastNmiPc(events[..n], none)
  }

  predicate SomeNmi(events: seq<Event>) {
    events != [] && (events[|events| - 1].exc.Nmi? || SomeNmi(events[..|events| - 1]))
  }

  /** What an exception or NMI taken with EXL already set leaves alone, and what it does to Status. */
  lemma InnerEntry(f: File, e: Event)
    requires HasExl(f.status)
    ensures
      var g := Entered(f, e);
      g.epc == f.epc && HasBd(g.cause) == HasBd(f.cause) &&
      g.errorEpc == (if e.exc.Nmi? then e.pc else f.errorEpc) &&
      g.status == if e.exc.Nmi? then WithNmi(f.status) else f.status
  {
    hide HasExl, HasBd, WithCode, WithBd, WithExl, WithNmi, Resume, ContextFor, XContextFor, EntryHiFor;
    hide ExcCode, FaultUnit, WritesBadVAddr;
    if !e.exc.Nmi? {
      FaultFieldsFit(e.exc);
      CodeLeavesBd(f.cause, ExcCode(e.exc), FaultUnit(e.exc));
      ExlIdempotent(f.status);
    }
  }

  lemma FaultFieldsFit(exc: Exception)
    ensures ExcCode(exc) <= 15 && FaultUnit(exc) <= 3
  {
  }

  /** The first exception, taken from the outer level. */
  lemma OuterEntry(f: File, first: Event)
    requires !HasExl(f.status) && !first.exc.Nmi?
    ensures
      var g := Entered(f, first);
      g.epc == (if first.inDelaySlot then first.pc - 4 else first.pc) && HasBd(g.cause) == first.inDelaySlot &&
      g.errorEpc == f.errorEpc && g.status == WithExl(f.status)
  {
    BdWritten(WithCode(f.cause, ExcCode(first.exc), FaultUnit(first.exc)), first.inDelaySlot);
    hide HasExl, HasBd, WithCode, WithBd, WithExl, ExcCode, FaultUnit;
    hide ContextFor, XContextFor, EntryHiFor, WritesBadVAddr;
  }

  /** Status inside the nest: EXL, and what an NMI sets once one has come. */
  lemma {:induction false} NestStatus(f: File, first: Event, rest: seq<Event>)
    requires !HasExl(f.status) && !first.exc.Nmi?
    ensures
      var nested := AllEntered(Entered(f, first), rest);
      nested.status == (if SomeNmi(rest) then WithNmi(WithExl(f.status)) else WithExl(f.status)) &&
      HasExl(nested.status)
  {
    ExlSet(f.status);
    NmiLeavesExl(WithExl(f.status));
    NmiIdempotent(WithExl(f.status));
    hide HasExl, WithExl, WithNmi, Entered;
    if rest == [] {
      OuterEntry(f, first);
    } else {
      var before := rest[..|rest| - 1];
      NestStatus(f, first, before);
      InnerEntry(AllEntered(Entered(f, first), before), rest[|rest| - 1]);
    }
  }

  /** The return path inside the nest: EPC and BD the first exception's, ErrorEPC the last NMI's. */
  lemma {:induction false} NestPath(f: File, first: Event, rest: seq<Event>)
    requires !HasExl(f.status) && !first.exc.Nmi?
    ensures
      var nested := AllEntered(Entered(f, first), rest);
      nested.epc == (if first.inDelaySlot then first.pc - 4 else first.pc) &&
      HasBd(nested.cause) == first.inDelaySlot &&
      nested.errorEpc == LastNmiPc(rest, f.errorEpc)
  {
    hide HasExl, HasBd, Entered;
    if rest == [] {
      OuterEntry(f, first);
    } else {
      var before := rest[..|rest| - 1];
      NestPath(f, first, before);
      NestStatus(f, first, before);
      InnerEntry(AllEntered(Entered(f, first), before), rest[|rest| - 1]);
    }
  }

  /** Once an exception is taken from the outer level, any further mix of exceptions and NMIs
      leaves its return address and its delay-slot flag alone, keeps interrupts out, sends every
      later exception to the general vector, and saves the last NMI's pc and no other. */
  lemma NestKeepsReturnPath(f: File, first: Event, rest: seq<Event>)
    requires !HasExl(f.status) && !HasErl(f.status) && !first.exc.Nmi?
    ensures
      var nested := AllEntered(Entered(f, first), rest);
      nested.epc == (if first.inDelaySlot then first.pc - 4 else first.pc) &&
      HasBd(nested.cause) == first.inDelaySlot &&
      nested.errorEpc == LastNmiPc(rest, f.errorEpc) &&
      nested.status == (if SomeNmi(rest) then WithNmi(WithExl(f.status)) else WithExl(f.status)) &&
      HasExl(nested.status) && HasErl(nested.status) == SomeNmi(rest) && !InterruptPending(nested)
  {
    ExlLeavesErl(f.status);
    ErlSet(WithExl(f.status));
    NestStatus(f, first, rest);
    NestPath(f, first, rest);
    hide HasExl, HasErl, HasBd, WithExl, WithNmi, Entered, AllEntered;
  }

  /** Inside the nest every exception but an NMI takes the general vector, refills included. */
  lemma NestedVectorsAreGeneral(f: File, first: Event, rest: seq<Event>, exc: Exception)
    requires !HasExl(f.status) && !HasErl(f.status) && !first.exc.Nmi? && !exc.Nmi?
    ensures
      var nested := AllEntered(Entered(f, first), rest);
      Vector(nested.status, KindOf(exc)) == VectorBase(nested.status) + 0x180
  {
    hide HasExl, HasErl, HasBd, WithExl, WithNmi, VectorBase;
    NestKeepsReturnPath(f, first, rest);
  }

  /** The returns unwind in order. Without an NMI one `ERET` resumes the first exception's program
      with Status exactly as it was; with one, the first `ERET` resumes the last NMI's pc, the
      second the first exception's, and Status differs only in the bits an NMI owns. */
  lemma ReturnsUnwind(f: File, first: Event, rest: seq<Event>)
    requires !HasExl(f.status) && !HasErl(f.status) && !first.exc.Nmi?
    ensures
      var nested := AllEntered(Entered(f, first), rest);
      var resume := if first.inDelaySlot then first.pc - 4 else first.pc;
      if SomeNmi(rest) then
        ReturnAddress(nested) == LastNmiPc(rest, f.errorEpc) &&
        ReturnAddress(Returned(nested)) == resume &&
        Returned(Returned(nested)).status == AfterNmi(f.status)
      else
        ReturnAddress(nested) == resume &&
        Returned(nested).status == f.status
  {
    hide HasExl, HasErl, HasBd, WithExl, WithNmi, WithoutExl, WithoutErl, AfterNmi;
    NestKeepsReturnPath(f, first, rest);
    ExlRestored(f.status);
    ErlCleared(WithNmi(WithExl(f.status)));
    NmiUnwound(f.status);
  }

  // ----- the register file as the emulator holds it

  const EPILOGUE_STALL: nat := 2

  datatype Dispatched = Dispatched(vector: bv64, stallCycles: nat)

  class Cop0 {
    var status: bv32
    var cause: bv32
    var epc: bv64
    var errorEpc: bv64
    var badVAddr: bv64
    var context: bv64
    var xContext: bv64
    var entryHi: bv64

    ghost function View(): File
      reads this
    {
      File(status, cause, epc, errorEpc, badVAddr, context, xContext, entryHi)
    }

    /** Status and Cause hold only bits they have. */
    ghost predicate Valid()
      reads this
    {
      StatusFits(status) && CauseFits(cause)
    }

    /** Cold reset: ERL and BEV set. */
    constructor ()
      ensures Valid() && View() == File(STATUS_ERL | STATUS_BEV, 0, 0, 0, 0, 0, 0, 0)
    {
      status := STATUS_ERL | STATUS_BEV;
      cause, epc, errorEpc, badVAddr, context, xContext, entryHi := 0, 0, 0, 0, 0, 0, 0;
    }

    /** Hardware writes drop the bits the register does not have. */
    method SetStatus(value: bv32)
      modifies this`status
      ensures StatusFits(value) ==> status == value
    {
      status := value & STATUS_MASK;
    }

    method SetCause(value: bv32)
      modifies this`cause
      ensures CauseFits(value) ==> cause == value
    {
      cause := value & CAUSE_MASK;
    }

    /** An NMI: saves to ErrorEPC, raises ERL, and writes no Cause. */
    method TakeNmi(pc: bv64) returns (d: Dispatched)
      requires Valid()
      modifies this`errorEpc, this`status
      ensures Valid() && View() == NmiEntered(old(View()), pc)
      ensures d == Dispatched(Vector(old(status), Reset), 2)
    {
      hide StatusFits, CauseFits, WithNmi;
      errorEpc := pc;
      var was := status;
      NmiFits(was);
      SetStatus(WithNmi(was));
      d := Dispatched(Vector(was, Reset), EPILOGUE_STALL);
    }

    /** `dispatch`: the exception epilogue, with the NMI intercepted first. */
    method Dispatch(exc: Exception, pc: bv64, inDelaySlot: bool, bad: bv64) returns (d: Dispatched)
      requires Valid()
      modifies this
      ensures Valid() && View() == Entered(old(View()), Event(exc, pc, inDelaySlot, bad))
      ensures d == Dispatched(Vector(old(status), KindOf(exc)), 2)
      ensures !exc.Nmi? && !HasExl(old(status)) ==> epc == if inDelaySlot then pc - 4 else pc
    {
      ghost var was := View();
      if !exc.Nmi? && !HasExl(status) {
        OuterEntry(was, Event(exc, pc, inDelaySlot, bad));
      }
      hide StatusFits, CauseFits, ExceptionEntered, NmiEntered, View, Vector;
      if exc.Nmi? {
        d := TakeNmi(pc);
      } else {
        d := Dispatched(Vector(status, KindOf(exc)), EPILOGUE_STALL);
        Enter(Event(exc, pc, inDelaySlot, bad));
      }
    }

    /** The epilogue in the flowchart's order: Cause, the fault address, and EXL last. */
    method Enter(e: Event)
      requires Valid()
      modifies this
      ensures Valid() && View() == ExceptionEntered(old(View()), e)
    {
      hide StatusFits, CauseFits, WithExl, HasExl, WithCode, WithBd, Resume, ContextFor, XContextFor, EntryHiFor;
      hide ExcCode, FaultUnit, WritesBadVAddr;
      var was := status;
      SaveCause(e.exc, e.pc, e.inDelaySlot);
      if WritesBadVAddr(e.exc) {
        LatchFaultAddress(e.badVAddr);
      }
      ExlFits(was);
      SetStatus(WithExl(was));
    }

    /** Cause.ExcCode and Cause.CE always; Cause.BD and EPC only from the outer level. */
    method SaveCause(exc: Exception, pc: bv64, inDelaySlot: bool)
      requires CauseFits(cause)
      modifies this`cause, this`epc
      ensures CauseFits(cause)
      ensures
        var coded := WithCode(old(cause), ExcCode(exc), FaultUnit(exc));
        if HasExl(status) then cause == coded && epc == old(epc)
        else cause == WithBd(coded, inDelaySlot) && epc == Resume(pc, inDelaySlot)
    {
      hide HasExl, WithCode, WithBd, Resume, CauseFits;
      var newCause := WithCode(cause, ExcCode(exc), FaultUnit(exc));
      FaultFieldsFit(exc);
      CodeFits(cause, ExcCode(exc), FaultUnit(exc));
      if !HasExl(status) {
        BdFits(newCause, inDelaySlot);
        newCause := WithBd(newCause, inDelaySlot);
        epc := Resume(pc, inDelaySlot);
      }
      SetCause(newCause);
    }

    /** BadVAddr, and the three registers the same latch feeds; the masks drop nothing. */
    method LatchFaultAddress(bad: bv64)
      modifies this`badVAddr, this`context, this`xContext, this`entryHi
      ensures badVAddr == bad && context == ContextFor(old(context), bad)
      ensures xContext == XContextFor(old(xContext), bad) && entryHi == EntryHiFor(old(entryHi), bad)
    {
      hide ContextFor, XContextFor, EntryHiFor;
      badVAddr := bad;
      LatchContext(bad);
      LatchXContext(bad);
      LatchEntryHi(bad);
    }

    method LatchContext(bad: bv64)
      modifies this`context
      ensures context == ContextFor(old(context), bad)
    {
      hide ContextFor;
      ContextFits(context, bad);
      context := ContextFor(context, bad) & CONTEXT_MASK;
    }

    method LatchXContext(bad: bv64)
      modifies this`xContext
      ensures xContext == XContextFor(old(xContext), bad)
    {
      hide XContextFor;
      XContextFits(xContext, bad);
      xContext := XContextFor(xContext, bad) & CONTEXT_MASK;
    }

    method LatchEntryHi(bad: bv64)
      modifies this`entryHi
      ensures entryHi == EntryHiFor(old(entryHi), bad)
    {
      hide EntryHiFor;
      EntryHiFits(entryHi, bad);
      entryHi := EntryHiFor(entryHi, bad) & ENTRY_HI_MASK;
    }

    /** `ERET`: from ErrorEPC while ERL is set, otherwise from EPC. */
    method Eret() returns (target: bv64)
      requires Valid()
      modifies this`status
      ensures Valid() && View() == Returned(old(View()))
      ensures target == ReturnAddress(old(View()))
    {
      hide StatusFits, CauseFits, WithoutErl, WithoutExl, HasErl;
      var was := status;
      ErlClearFits(was);
      ExlClearFits(was);
      if HasErl(was) {
        SetStatus(WithoutErl(was));
        target := errorEpc;
      } else {
        SetStatus(WithoutExl(was));
        target := epc;
      }
    }

    method IsInterruptPending() returns (pending: bool)
      ensures pending <==> InterruptPending(View())
    {
      if status & STATUS_IE == 0 {
        return false;
      }
      if HasExl(status) || HasErl(status) {
        return false;
      }
      var ip := (cause >> 8) & 0xFF;
      var im := (status >> 8) & 0xFF;
      return ip & im != 0;
    }
  }

  predicate StatusFits(s: bv32) {
    s & STATUS_MASK == s
  }

  predicate CauseFits(c: bv32) {
    c & CAUSE_MASK == c
  }

  lemma NmiFits(s: bv32)
    requires StatusFits(s)
    ensures StatusFits(WithNmi(s))
  {
  }

  lemma ExlFits(s: bv32)
    requires StatusFits(s)
    ensures StatusFits(WithExl(s))
  {
  }

  lemma ErlClearFits(s: bv32)
    requires StatusFits(s)
    ensures StatusFits(WithoutErl(s))
  {
  }

  lemma ExlClearFits(s: bv32)
    requires StatusFits(s)
    ensures StatusFits(WithoutExl(s))
  {
  }

  lemma CodeFits(c: bv32, code: bv32, unit: bv32)
    requires CauseFits(c) && code <= 15 && unit <= 3
    ensures CauseFits(WithCode(c, code, unit))
  {
  }

  lemma BdFits(c: bv32, inDelaySlot: bool)
    requires CauseFits(c)
    ensures CauseFits(WithBd(c, inDelaySlot))
  {
  }
}
