/** What a handler finds: the fields an exception leaves in each register, and the vector it arrives
    at. */
module ExceptionHandler {
  import opened Exceptions

  // ----- Status

  /** The bits of `mask` are set and the others are as they were. */
  predicate SetsOnly(was: bv32, now: bv32, mask: bv32) {
    now & mask == mask && now & !mask == was & !mask
  }

  predicate ClearsOnly(was: bv32, now: bv32, mask: bv32) {
    now & mask == 0 && now & !mask == was & !mask
  }

  /** An exception raises EXL, bit 1, and changes no other bit. */
  lemma ExceptionRaisesExl(f: File, e: Event)
    requires !e.exc.Nmi?
    ensures SetsOnly(f.status, Entered(f, e).status, 0x2)
  {
    ExlBit(f.status);
    hide SetsOnly, WithExl, HasExl, WithCode, WithBd, ContextFor, XContextFor, EntryHiFor, ExcCode, FaultUnit;
  }

  lemma ExlBit(status: bv32)
    ensures SetsOnly(status, WithExl(status), 0x2)
  {
  }

  /** An NMI raises ERL, SR and BEV, bits 2, 20 and 22, drops TS, bit 21, saves its pc whole, and
      changes nothing else. */
  lemma NmiStatusBits(f: File, e: Event)
    requires e.exc.Nmi?
    ensures
      var g := Entered(f, e);
      g.status & 0x0070_0004 == 0x0050_0004 && g.status & 0xFF8F_FFFB == f.status & 0xFF8F_FFFB &&
      g == f.(status := g.status, errorEpc := e.pc)
  {
  }

  /** A return leaves by ErrorEPC and clears bit 2 while that is set, and otherwise leaves by EPC and
      clears bit 1. */
  lemma ReturnBits(f: File)
    ensures
      var g := Returned(f);
      g == f.(status := g.status) &&
      if f.status & 0x4 == 0x4 then
        ReturnAddress(f) == f.errorEpc && ClearsOnly(f.status, g.status, 0x4)
      else
        ReturnAddress(f) == f.epc && ClearsOnly(f.status, g.status, 0x2)
  {
    ErlIff(f.status);
    ErlDropped(f.status);
    ExlDropped(f.status);
    hide HasErl, WithoutErl, WithoutExl, ClearsOnly;
  }

  lemma ErlIff(status: bv32)
    ensures HasErl(status) <==> status & 0x4 == 0x4
  {
  }

  lemma ErlDropped(status: bv32)
    ensures ClearsOnly(status, WithoutErl(status), 0x4)
  {
  }

  lemma ExlDropped(status: bv32)
    ensures ClearsOnly(status, WithoutExl(status), 0x2)
  {
  }

  /** An interrupt is taken exactly when IE is set, EXL and ERL are clear, and one of the eight lines,
      bits 8 to 15, is pending in Cause and enabled in Status. */
  lemma InterruptIff(f: File)
    ensures InterruptPending(f) <==> f.status & 0x7 == 0x1 && f.cause & f.status & 0xFF00 != 0
  {
  }

  // ----- Cause

  /** The exceptions an ExcCode stands for (User's Manual, Table 6-2). */
  predicate Reports(code: bv32, exc: Exception) {
    match code
    case 0 => exc.Interrupt?
    case 1 => exc.TlbModified?
    case 2 => (exc.TlbRefill? || exc.TlbInvalid?) && !exc.store
    case 3 => (exc.TlbRefill? || exc.TlbInvalid?) && exc.store
    case 4 => exc.AddressError? && !exc.store
    case 5 => exc.AddressError? && exc.store
    case 8 => exc.Syscall?
    case 9 => exc.Breakpoint?
    case 10 => exc.ReservedInstruction? || exc.CoprocessorReserved?
    case 11 => exc.CoprocessorUnusable?
    case 12 => exc.Overflow?
    case 13 => exc.Trap?
    case 15 => exc.FloatingPoint?
    case _ => false
  }

  function CodeField(cause: bv32): bv32 {
    (cause >> 2) & 0x1F
  }

  function UnitField(cause: bv32): bv32 {
    (cause >> 28) & 0x3
  }

  /** Reading Cause tells which exception came: its code is the one that stands for it, and its unit
      is the coprocessor's or zero. */
  lemma CauseReports(f: File, e: Event, code: bv32)
    requires !e.exc.Nmi?
    ensures code == CodeField(Entered(f, e).cause) <==> Reports(code, e.exc)
    ensures UnitField(Entered(f, e).cause) ==
      if e.exc.CoprocessorUnusable? || e.exc.CoprocessorReserved? then e.exc.unit & 0x3 else 0
  {
    EnteredFields(f, e);
    CodeReports(e.exc, code);
    hide Entered, CodeField, UnitField, Reports, ExcCode;
  }

  lemma CodeReports(exc: Exception, code: bv32)
    requires !exc.Nmi?
    ensures code == ExcCode(exc) <==> Reports(code, exc)
  {
  }

  predicate Bit31(cause: bv32) {
    cause & 0x8000_0000 != 0
  }

  /** Nothing outside BD, CE and ExcCode differs. */
  predicate AgreeElsewhere(was: bv32, now: bv32) {
    now & 0x4FFF_FF83 == was & 0x4FFF_FF83
  }

  /** BD is the first exception's, and every bit outside BD, CE and ExcCode is as it was. */
  lemma CauseKeeps(f: File, e: Event)
    requires !e.exc.Nmi?
    ensures AgreeElsewhere(f.cause, Entered(f, e).cause)
    ensures Bit31(Entered(f, e).cause) ==
      if f.status & 0x2 == 0 then e.inDelaySlot else Bit31(f.cause)
  {
    var coded := WithCode(f.cause, ExcCode(e.exc), FaultUnit(e.exc));
    FaultFieldsFit(e.exc);
    CodedKeeps(f.cause, ExcCode(e.exc), FaultUnit(e.exc));
    CodedKeepsBd(f.cause, ExcCode(e.exc), FaultUnit(e.exc));
    BdAlone(f.cause, coded, e.inDelaySlot);
    BdIsBit31(coded, e.inDelaySlot);
    OuterIff(f.status);
    hide WithCode, WithBd, WithExl, HasExl, ExcCode, FaultUnit, ContextFor, XContextFor, EntryHiFor;
    hide AgreeElsewhere, Bit31;
  }

  lemma EnteredFields(f: File, e: Event)
    requires !e.exc.Nmi?
    ensures CodeField(Entered(f, e).cause) == ExcCode(e.exc) && UnitField(Entered(f, e).cause) == FaultUnit(e.exc)
  {
    var coded := WithCode(f.cause, ExcCode(e.exc), FaultUnit(e.exc));
    FaultFieldsFit(e.exc);
    CodedFields(f.cause, ExcCode(e.exc), FaultUnit(e.exc));
    BdLeavesFields(coded, e.inDelaySlot);
    hide WithCode, WithBd, WithExl, HasExl, ExcCode, FaultUnit, ContextFor, XContextFor, EntryHiFor;
    hide CodeField, UnitField;
  }

  lemma OuterIff(status: bv32)
    ensures HasExl(status) <==> status & 0x2 != 0
  {
  }

  lemma CodedFields(cause: bv32, code: bv32, unit: bv32)
    requires code <= 15 && unit <= 3
    ensures CodeField(WithCode(cause, code, unit)) == code && UnitField(WithCode(cause, code, unit)) == unit
  {
  }

  lemma CodedKeeps(cause: bv32, code: bv32, unit: bv32)
    requires code <= 15 && unit <= 3
    ensures AgreeElsewhere(cause, WithCode(cause, code, unit))
  {
  }

  lemma CodedKeepsBd(cause: bv32, code: bv32, unit: bv32)
    requires code <= 15 && unit <= 3
    ensures Bit31(WithCode(cause, code, unit)) == Bit31(cause)
  {
  }

  lemma BdLeavesFields(cause: bv32, inDelaySlot: bool)
    ensures CodeField(WithBd(cause, inDelaySlot)) == CodeField(cause)
    ensures UnitField(WithBd(cause, inDelaySlot)) == UnitField(cause)
  {
  }

  lemma BdIsBit31(cause: bv32, inDelaySlot: bool)
    ensures Bit31(WithBd(cause, inDelaySlot)) == inDelaySlot
  {
  }

  lemma BdAlone(was: bv32, cause: bv32, inDelaySlot: bool)
    requires AgreeElsewhere(was, cause)
    ensures AgreeElsewhere(was, WithBd(cause, inDelaySlot))
  {
  }

  // ----- the fault address

  /** The exceptions with codes 1 to 5, and no others, latch the faulting address. */
  lemma FaultAddressLatched(f: File, e: Event)
    requires !e.exc.Nmi?
    ensures
      var g := Entered(f, e);
      if 1 <= CodeField(g.cause) <= 5 then
        g.badVAddr == e.badVAddr && HoldsPage(f.context, g.context, e.badVAddr) &&
        HoldsPageAndRegion(f.xContext, g.xContext, e.badVAddr) &&
        HoldsTag(f.entryHi, g.entryHi, e.badVAddr)
      else (g.badVAddr, g.context, g.xContext, g.entryHi) == (f.badVAddr, f.context, f.xContext, f.entryHi)
  {
    EnteredFields(f, e);
    LatchingCodes(e.exc);
    hide ContextFor, XContextFor, EntryHiFor, WithExl, HasExl, WithCode, WithBd, ExcCode, FaultUnit, WritesBadVAddr;
    hide CodeField, UnitField, HoldsPage, HoldsPageAndRegion, HoldsTag;
    if WritesBadVAddr(e.exc) {
      ContextHolds(f.context, e.badVAddr);
      XContextHolds(f.xContext, e.badVAddr);
      EntryHiHolds(f.entryHi, e.badVAddr);
    }
  }

  lemma LatchingCodes(exc: Exception)
    requires !exc.Nmi?
    ensures WritesBadVAddr(exc) <==> 1 <= ExcCode(exc) <= 5
  {
  }

  /** Context: PTEBase from bit 23 is software's, VA(31:13) stands at bit 4, the rest is zero. */
  predicate HoldsPage(was: bv64, now: bv64, bad: bv64) {
    now >> 23 == was >> 23 && (now >> 4) & 0x7_FFFF == (bad >> 13) & 0x7_FFFF && now & 0xF == 0
  }

  /** XContext: PTEBase from bit 33 is software's, the region stands at bit 31, VA(39:13) at bit 4. */
  predicate HoldsPageAndRegion(was: bv64, now: bv64, bad: bv64) {
    now >> 33 == was >> 33 && (now >> 31) & 0x3 == bad >> 62 &&
    (now >> 4) & 0x7FF_FFFF == (bad >> 13) & 0x7FF_FFFF && now & 0xF == 0
  }

  /** EntryHi: the ASID is software's, VA(39:13) and the region stand as in the address, the rest is
      zero. */
  predicate HoldsTag(was: bv64, now: bv64, bad: bv64) {
    now & 0xFF == was & 0xFF && (now >> 13) & 0x7FF_FFFF == (bad >> 13) & 0x7FF_FFFF &&
    now >> 62 == bad >> 62 && (now >> 8) & 0x1F == 0 && (now >> 40) & 0x3F_FFFF == 0
  }

  lemma ContextHolds(was: bv64, bad: bv64)
    ensures HoldsPage(was, ContextFor(was, bad), bad)
  {
  }

  lemma XContextHolds(was: bv64, bad: bv64)
    ensures HoldsPageAndRegion(was, XContextFor(was, bad), bad)
  {
  }

  lemma EntryHiHolds(was: bv64, bad: bv64)
    ensures HoldsTag(was, EntryHiFor(was, bad), bad)
  {
  }

  // ----- the vector

  /** Where the vectors stand, BEV being bit 22. */
  function Base(status: bv32): bv64 {
    if status & 0x0040_0000 == 0x0040_0000 then 0xFFFF_FFFF_BFC0_0200 else 0xFFFF_FFFF_8000_0000
  }

  /** Each vector belongs to its own exceptions: the reset address to the NMI, the two refill vectors
      to the two kinds of refill taken with EXL clear, and the general vector to all the rest. */
  lemma VectorTellsApart(status: bv32, exc: Exception)
    ensures
      var v, refill := Vector(status, KindOf(exc)), exc.TlbRefill? && status & 0x2 == 0;
      (v == 0xFFFF_FFFF_BFC0_0000 <==> exc.Nmi?) &&
      (v == Base(status) <==> refill && !exc.wide) &&
      (v == Base(status) + 0x080 <==> refill && exc.wide) &&
      (v == Base(status) + 0x180 <==> !exc.Nmi? && !refill)
  {
    OuterIff(status);
    BaseIsVectorBase(status);
    hide HasExl, VectorBase;
  }

  lemma BaseIsVectorBase(status: bv32)
    ensures Base(status) == VectorBase(status)
  {
  }
}
