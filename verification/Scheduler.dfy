/** The canonical master-clock scheduler: one incremented counter, three run loops.

    The machine behind the scheduler is a value of an arbitrary type `S`, stepped by arbitrary
    deterministic functions; what the loops owe is the schedule they step it on. */
module Scheduler {
  import opened MachineWords
  import opened Cop0Timer

  const CPU_DIVIDER: nat := 2
  const RCP_DIVIDER: nat := 3
  /** Ticks after which the edge schedule repeats. */
  const EDGE_PERIOD: nat := 6
  const COUNT_DIVIDER: nat := 4
  /** One idle pair: two CPU cycles, and exactly one `Count` tick. */
  const PAIR_TICKS: nat := 2 * CPU_DIVIDER
  /** Far enough below the end of the timeline that no addition the loops make can overflow:
      an instruction's cost is a 32-bit number of two-tick cycles. */
  const LAST_TARGET: nat := U64_MAX - 2 * 0x1_0000_0000 - EDGE_PERIOD

  /** The seeded power-on offsets of the two domains. */
  datatype Phases = Phases(cpu: nat, rcp: nat)

  type SeededPhases = p: Phases | p.cpu < CPU_DIVIDER && p.rcp < RCP_DIVIDER witness Phases(0, 0)

  /** A tick at which some domain is due, and which ones are. */
  datatype Edge = Edge(tick: nat, cpu: bool, rcp: bool)

  /** The machine's parts that the scheduler drives, as functions of its state. */
  datatype Machine<!S> = Machine(
    cpuTick: (S, nat) -> S,
    rcpStep: (S, nat) -> S,
    halted: S -> bool,
    instruction: (S, nat) -> (S, u32),
    parked: S -> bool,
    timer: S -> TimerView,
    irq: S -> bool,
    retirePairs: (S, nat) -> S)

  // ----- the schedule, tick by tick

  predicate IsEdge(tick: nat, phase: nat, divider: nat)
    requires divider > 0
  {
    (tick + phase) % divider == 0
  }

  function EdgeAt(phases: Phases, tick: nat): Edge {
    Edge(tick, IsEdge(tick, phases.cpu, CPU_DIVIDER), IsEdge(tick, phases.rcp, RCP_DIVIDER))
  }

  /** Every edge in (from, until], in order: each tick is looked at, and kept when a domain is due. */
  function Schedule(phases: Phases, from: nat, until: nat): seq<Edge>
    decreases until
  {
    if until <= from then []
    else
      var e := EdgeAt(phases, until);
      Schedule(phases, from, until - 1) + if e.cpu || e.rcp then [e] else []
  }

  /** The RCP's edges in (from, until]. */
  function RcpEdges(phases: Phases, from: nat, until: nat): seq<nat>
    decreases until
  {
    if until <= from then []
    else RcpEdges(phases, from, until - 1) + if IsEdge(until, phases.rcp, RCP_DIVIDER) then [until] else []
  }

  // ----- derived positions

  function CpuCycles(phases: Phases, tick: nat): nat {
    (tick + phases.cpu) / CPU_DIVIDER
  }

  function RcpCycles(phases: Phases, tick: nat): nat {
    (tick + phases.rcp) / RCP_DIVIDER
  }

  function CountTicks(phases: Phases, tick: nat): nat {
    (tick + phases.cpu) / COUNT_DIVIDER
  }

  function CpuSteps(edges: seq<Edge>): nat {
    if edges == [] then 0 else CpuSteps(edges[..|edges| - 1]) + if edges[|edges| - 1].cpu then 1 else 0
  }

  function RcpSteps(edges: seq<Edge>): nat {
    if edges == [] then 0 else RcpSteps(edges[..|edges| - 1]) + if edges[|edges| - 1].rcp then 1 else 0
  }

  // ----- properties of the schedule

  /** Running to b and then on to c meets the edges of running straight to c. */
  lemma {:induction false} ScheduleSplits(phases: Phases, a: nat, b: nat, c: nat)
    requires a <= b <= c
    ensures Schedule(phases, a, c) == Schedule(phases, a, b) + Schedule(phases, b, c)
    decreases c
  {
    if b < c {
      ScheduleSplits(phases, a, b, c - 1);
    }
  }

  /** Each domain is due once for every cycle its derived position advances. */
  lemma {:induction false} StepCountsAreCycleDifferences(phases: Phases, a: nat, b: nat)
    requires a <= b
    ensures CpuSteps(Schedule(phases, a, b)) == CpuCycles(phases, b) - CpuCycles(phases, a)
    ensures RcpSteps(Schedule(phases, a, b)) == RcpCycles(phases, b) - RcpCycles(phases, a)
    decreases b
  {
    hide CpuCycles, RcpCycles, IsEdge;
    if a < b {
      StepCountsAreCycleDifferences(phases, a, b - 1);
      var e := EdgeAt(phases, b);
      CycleStep(phases, b);
      StepCountsAppend(Schedule(phases, a, b - 1), e);
      var before := Schedule(phases, a, b - 1);
      assert Schedule(phases, a, b) == if e.cpu || e.rcp then before + [e] else before;
    }
  }

  lemma StepCountsAppend(edges: seq<Edge>, e: Edge)
    ensures CpuSteps(edges + [e]) == CpuSteps(edges) + if e.cpu then 1 else 0
    ensures RcpSteps(edges + [e]) == RcpSteps(edges) + if e.rcp then 1 else 0
  {
    assert (edges + [e])[..|edges|] == edges;
  }

  lemma CycleStep(phases: Phases, tick: nat)
    requires 0 < tick
    ensures CpuCycles(phases, tick) == CpuCycles(phases, tick - 1) + if EdgeAt(phases, tick).cpu then 1 else 0
    ensures RcpCycles(phases, tick) == RcpCycles(phases, tick - 1) + if EdgeAt(phases, tick).rcp then 1 else 0
  {
  }

  /** The schedule holds exactly the due ticks of (a, b], each once, in increasing order. */
  lemma {:induction false} ScheduleIsExact(phases: Phases, a: nat, b: nat)
    ensures forall i :: 0 <= i < |Schedule(phases, a, b)| ==>
      var e := Schedule(phases, a, b)[i];
      a < e.tick <= b && e == EdgeAt(phases, e.tick) && (e.cpu || e.rcp)
    ensures forall i, j :: 0 <= i < j < |Schedule(phases, a, b)| ==>
      Schedule(phases, a, b)[i].tick < Schedule(phases, a, b)[j].tick
    ensures forall t :: a < t <= b && (EdgeAt(phases, t).cpu || EdgeAt(phases, t).rcp) ==>
      EdgeAt(phases, t) in Schedule(phases, a, b)
    decreases b
  {
    if a < b {
      ScheduleIsExact(phases, a, b - 1);
    }
  }

  /** The ticks of a schedule at which the RCP is due. */
  function RcpTicksOf(edges: seq<Edge>): seq<nat> {
    if edges == [] then []
    else
      var n := |edges| - 1;
      RcpTicksOf(edges[..n]) + if edges[n].rcp then [edges[n].tick] else []
  }

  lemma RcpTicksAppend(edges: seq<Edge>, e: Edge)
    ensures RcpTicksOf(edges + [e]) == RcpTicksOf(edges) + if e.rcp then [e.tick] else []
  {
    assert (edges + [e])[..|edges|] == edges;
  }

  /** The RCP's edges are the schedule's RCP steps, in order. */
  lemma {:induction false} RcpEdgesAreScheduled(phases: Phases, a: nat, b: nat)
    ensures RcpEdges(phases, a, b) == RcpTicksOf(Schedule(phases, a, b))
    decreases b
  {
    if a < b {
      RcpEdgesAreScheduled(phases, a, b - 1);
      var e, before := EdgeAt(phases, b), Schedule(phases, a, b - 1);
      assert Schedule(phases, a, b) == if e.cpu || e.rcp then before + [e] else before;
      RcpTicksAppend(before, e);
      hide IsEdge, RcpTicksOf;
    }
  }

  /** They lie in range, each once and in increasing order, and are as many as the cycles the RCP's
      derived position advances. */
  lemma {:induction false} RcpEdgesAreExact(phases: Phases, a: nat, b: nat)
    requires a <= b
    ensures |RcpEdges(phases, a, b)| == RcpCycles(phases, b) - RcpCycles(phases, a)
    ensures forall i :: 0 <= i < |RcpEdges(phases, a, b)| ==>
      a < RcpEdges(phases, a, b)[i] <= b && EdgeAt(phases, RcpEdges(phases, a, b)[i]).rcp
    ensures forall i, j :: 0 <= i < j < |RcpEdges(phases, a, b)| ==>
      RcpEdges(phases, a, b)[i] < RcpEdges(phases, a, b)[j]
    decreases b
  {
    if a < b {
      RcpEdgesAreExact(phases, a, b - 1);
      CycleStep(phases, b);
    }
  }

  /** Shifting the window by a whole period shifts every edge and changes nothing else. */
  lemma EdgeShifts(phases: Phases, t: nat, base: nat, k: nat)
    requires t == base + EDGE_PERIOD * k
    ensures EdgeAt(phases, t).cpu == EdgeAt(phases, base).cpu
    ensures EdgeAt(phases, t).rcp == EdgeAt(phases, base).rcp
  {
    assert (t + phases.cpu) % 2 == (base + phases.cpu) % 2;
    assert (t + phases.rcp) % 3 == (base + phases.rcp) % 3;
  }

  /** A quiet stretch adds nothing to the schedule. */
  lemma {:induction false} QuietStretch(phases: Phases, from: nat, now: nat, until: nat)
    requires from <= now <= until
    requires forall t :: now < t <= until ==> !EdgeAt(phases, t).cpu && !EdgeAt(phases, t).rcp
    ensures Schedule(phases, from, until) == Schedule(phases, from, now)
    decreases until
  {
    if now < until {
      QuietStretch(phases, from, now, until - 1);
    }
  }

  lemma {:induction false} QuietRcpStretch(phases: Phases, from: nat, now: nat, until: nat)
    requires from <= now <= until
    requires forall t :: now < t <= until ==> !IsEdge(t, phases.rcp, RCP_DIVIDER)
    ensures RcpEdges(phases, from, until) == RcpEdges(phases, from, now)
    decreases until
  {
    if now < until {
      QuietRcpStretch(phases, from, now, until - 1);
    }
  }

  /** Short of the next multiple the remainder just counts up. */
  lemma RemainderCountsUp(x: nat, divider: nat, j: nat)
    requires 0 < divider && x % divider + j <= divider
    ensures (x + j) % divider == if x % divider + j == divider then 0 else x % divider + j
  {
    var q, r := x / divider, x % divider;
    assert x == q * divider + r;
    assert (q + 1) * divider == q * divider + divider;
    if r + j == divider {
      QuotientUnique(x + j, divider, q + 1, 0);
    } else {
      QuotientUnique(x + j, divider, q, r + j);
    }
  }

  lemma NextEdgeIsLeast(tick: nat, phase: nat, divider: nat)
    requires 0 < divider
    ensures
      var rem := (tick + 1 + phase) % divider;
      var next := if rem == 0 then tick + 1 else tick + 1 + (divider - rem);
      tick < next <= tick + divider && IsEdge(next, phase, divider) &&
      forall t :: tick < t < next ==> !IsEdge(t, phase, divider)
  {
    var x := tick + 1 + phase;
    var rem := x % divider;
    if rem != 0 {
      RemainderCountsUp(x, divider, divider - rem);
      forall t | tick < t < tick + 1 + (divider - rem)
        ensures !IsEdge(t, phase, divider)
      {
        RemainderCountsUp(x, divider, t - tick - 1);
      }
    }
  }

  /** The next tick strictly after `tick` at which a domain steps: it is an edge, and no tick in
      between is one. */
  function NextEdgeAfter(tick: nat, phase: nat, divider: nat): (next: nat)
    requires 0 < divider
    ensures tick < next <= tick + divider
    ensures IsEdge(next, phase, divider)
    ensures forall t :: tick < t < next ==> !IsEdge(t, phase, divider)
  {
    NextEdgeIsLeast(tick, phase, divider);
    var candidate := tick + 1;
    var rem := (candidate + phase) % divider;
    if rem == 0 then candidate else candidate + (divider - rem)
  }

  /** An idle pair advances `Count` by exactly one, so a bound in `Count` ticks is one in pairs. */
  lemma PairIsOneCountTick(phases: Phases, tick: nat, pairs: nat)
    ensures CountTicks(phases, tick + PAIR_TICKS * pairs) == CountTicks(phases, tick) + pairs
  {
  }

  /** `Count` ticks once for every two cycles of the CPU, on the even ones. */
  lemma CountIsHalfTheCpu(phases: Phases, tick: nat)
    ensures 2 * CountTicks(phases, tick) <= CpuCycles(phases, tick) <= 2 * CountTicks(phases, tick) + 1
  {
  }

  // ----- the machine, replayed over a schedule

  /** One edge: the CPU first, unless it is halted, and then the RCP. */
  function StepEdge<S>(m: Machine<S>, phases: Phases, s: S, e: Edge): S {
    var afterCpu := if e.cpu && !m.halted(s) then m.cpuTick(s, CountTicks(phases, e.tick)) else s;
    if e.rcp then m.rcpStep(afterCpu, e.tick) else afterCpu
  }

  function Replay<S>(m: Machine<S>, phases: Phases, s: S, edges: seq<Edge>): S {
    if edges == [] then s
    else
      var n := |edges| - 1;
      StepEdge(m, phases, Replay(m, phases, s, edges[..n]), edges[n])
  }

  lemma ReplayNothing<S>(m: Machine<S>, phases: Phases, s: S)
    ensures Replay(m, phases, s, []) == s
  {
  }

  lemma {:induction false} ReplayAppends<S>(m: Machine<S>, phases: Phases, s: S, a: seq<Edge>, b: seq<Edge>)
    ensures Replay(m, phases, s, a + b) == Replay(m, phases, Replay(m, phases, s, a), b)
  {
    if b == [] {
      assert a + b == a;
    } else {
      var n := |b| - 1;
      ReplayAppends(m, phases, s, a, b[..n]);
      assert (a + b)[..|a + b| - 1] == a + b[..n];
    }
  }

  /** Stopping at b on the way from a to c leaves the machine where running straight to c does. */
  lemma RunsCompose<S>(m: Machine<S>, phases: Phases, s: S, a: nat, b: nat, c: nat)
    requires a <= b <= c
    ensures Replay(m, phases, s, Schedule(phases, a, c))
         == Replay(m, phases, Replay(m, phases, s, Schedule(phases, a, b)), Schedule(phases, b, c))
  {
    ScheduleSplits(phases, a, b, c);
    ReplayAppends(m, phases, s, Schedule(phases, a, b), Schedule(phases, b, c));
  }

  // ----- the order of single steps

  /** One domain due at one tick. */
  datatype Due = CpuDue(tick: nat) | RcpDue(tick: nat)

  predicate IsDue(phases: Phases, d: Due) {
    match d
    case CpuDue(tick) => IsEdge(tick, phases.cpu, CPU_DIVIDER)
    case RcpDue(tick) => IsEdge(tick, phases.rcp, RCP_DIVIDER)
  }

  /** By tick, and at the same tick the CPU before the RCP. */
  predicate Precedes(a: Due, b: Due) {
    a.tick < b.tick || (a.tick == b.tick && a.CpuDue? && b.RcpDue?)
  }

  /** Everything due in (from, until], each once, in that order. */
  ghost predicate InOrder(phases: Phases, from: nat, until: nat, dues: seq<Due>) {
    (forall d: Due :: d in dues <==> from < d.tick <= until && IsDue(phases, d)) &&
    (forall i, j :: 0 <= i < j < |dues| ==> Precedes(dues[i], dues[j]))
  }

  /** One domain's step; a halted CPU lets its own go by. */
  function Taken<S>(m: Machine<S>, phases: Phases, s: S, d: Due): S {
    match d
    case CpuDue(tick) => if m.halted(s) then s else m.cpuTick(s, CountTicks(phases, tick))
    case RcpDue(tick) => m.rcpStep(s, tick)
  }

  function TakenAll<S>(m: Machine<S>, phases: Phases, s: S, dues: seq<Due>): S {
    if dues == [] then s
    else
      var n := |dues| - 1;
      Taken(m, phases, TakenAll(m, phases, s, dues[..n]), dues[n])
  }

  /** Places in the order, two to a tick. */
  function Rank(d: Due): nat {
    2 * d.tick + if d.RcpDue? then 1 else 0
  }

  function Ranked(rank: nat): (d: Due)
    ensures Rank(d) == rank
  {
    if rank % 2 == 1 then RcpDue(rank / 2) else CpuDue(rank / 2)
  }

  /** Everything due at the places of (low, high], each once, in order. */
  ghost predicate Between(phases: Phases, low: nat, high: nat, dues: seq<Due>) {
    (forall d: Due :: d in dues <==> low < Rank(d) <= high && IsDue(phases, d)) &&
    (forall i, j :: 0 <= i < j < |dues| ==> Rank(dues[i]) < Rank(dues[j]))
  }

  lemma OrderIsRank(phases: Phases, from: nat, until: nat, dues: seq<Due>)
    requires InOrder(phases, from, until, dues)
    ensures Between(phases, 2 * from + 1, 2 * until + 1, dues)
  {
    forall i, j | 0 <= i < j < |dues|
      ensures Rank(dues[i]) < Rank(dues[j])
    {
      assert Precedes(dues[i], dues[j]);
    }
    hide IsDue;
  }

  /** The last place is the last step's, or nobody's. */
  lemma PeelOne(phases: Phases, low: nat, high: nat, dues: seq<Due>)
    requires low < high && Between(phases, low, high, dues)
    ensures
      if IsDue(phases, Ranked(high)) then
        dues != [] && dues[|dues| - 1] == Ranked(high) && Between(phases, low, high - 1, dues[..|dues| - 1])
      else Between(phases, low, high - 1, dues)
  {
    var last := Ranked(high);
    hide IsDue;
    if IsDue(phases, last) {
      var k :| 0 <= k < |dues| && dues[k] == last;
      var final := dues[|dues| - 1];
      assert final in dues && Rank(final) <= high;
      var rest := dues[..k];
      forall d: Due | low < Rank(d) <= high - 1 && IsDue(phases, d)
        ensures d in rest
      {
        var i :| 0 <= i < |dues| && dues[i] == d;
        assert rest[i] == d;
      }
    } else {
      forall d: Due | d in dues
        ensures Rank(d) <= high - 1
      {
        assert Rank(d) == high ==> d == last;
      }
    }
  }

  lemma PeelStep<S>(m: Machine<S>, phases: Phases, s: S, low: nat, high: nat, dues: seq<Due>)
    returns (before: seq<Due>)
    requires low < high && Between(phases, low, high, dues)
    ensures Between(phases, low, high - 1, before)
    ensures TakenAll(m, phases, s, dues) ==
      if IsDue(phases, Ranked(high)) then Taken(m, phases, TakenAll(m, phases, s, before), Ranked(high))
      else TakenAll(m, phases, s, before)
  {
    PeelOne(phases, low, high, dues);
    before := if IsDue(phases, Ranked(high)) then dues[..|dues| - 1] else dues;
    hide Between, IsDue, Taken;
  }

  /** The steps due at one tick, taken in order, are the tick's edge replayed. */
  lemma EdgeInOrder<S>(m: Machine<S>, phases: Phases, s: S, low: nat, tick: nat, dues: seq<Due>)
    returns (before: seq<Due>)
    requires low < 2 * tick && Between(phases, low, 2 * tick + 1, dues)
    ensures Between(phases, low, 2 * tick - 1, before)
    ensures TakenAll(m, phases, s, dues) ==
      StepEdge(m, phases, TakenAll(m, phases, s, before), EdgeAt(phases, tick))
  {
    hide Between, IsEdge, TakenAll;
    var withCpu := PeelStep(m, phases, s, low, 2 * tick + 1, dues);
    before := PeelStep(m, phases, s, low, 2 * tick, withCpu);
  }

  /** A run replays the single steps in order: the list of all that was due, by tick and the CPU
      before the RCP, takes the machine where the replay of the schedule does. */
  lemma ReplayTakesInOrder<S>(m: Machine<S>, phases: Phases, s: S, a: nat, b: nat,
                                                 dues: seq<Due>)
    requires InOrder(phases, a, b, dues)
    ensures Replay(m, phases, s, Schedule(phases, a, b)) == TakenAll(m, phases, s, dues)
  {
    OrderIsRank(phases, a, b, dues);
    if b <= a {
      NothingBetween(phases, 2 * a + 1, 2 * b + 1, dues);
    } else {
      ReplayByRank(m, phases, s, a, b, dues);
    }
  }

  lemma NothingBetween(phases: Phases, low: nat, high: nat, dues: seq<Due>)
    requires high <= low && Between(phases, low, high, dues)
    ensures dues == []
  {
    assert multiset(dues) == multiset{};
    assert |dues| == |multiset(dues)|;
  }

  lemma {:induction false} ReplayByRank<S>(m: Machine<S>, phases: Phases, s: S, a: nat, b: nat, dues: seq<Due>)
    requires a <= b && Between(phases, 2 * a + 1, 2 * b + 1, dues)
    ensures Replay(m, phases, s, Schedule(phases, a, b)) == TakenAll(m, phases, s, dues)
    decreases b
  {
    hide *;
    if a == b {
      NothingReplayed(m, phases, s, a, dues);
    } else {
      var before := EdgeInOrder(m, phases, s, 2 * a + 1, b, dues);
      ReplayByRank(m, phases, s, a, b - 1, before);
      ReplayOneTick(m, phases, s, a, b);
    }
  }

  lemma NothingReplayed<S>(m: Machine<S>, phases: Phases, s: S, a: nat, dues: seq<Due>)
    requires Between(phases, 2 * a + 1, 2 * a + 1, dues)
    ensures Replay(m, phases, s, Schedule(phases, a, a)) == TakenAll(m, phases, s, dues)
  {
    NothingBetween(phases, 2 * a + 1, 2 * a + 1, dues);
  }

  lemma ReplayOneTick<S>(m: Machine<S>, phases: Phases, s: S, a: nat, b: nat)
    requires a < b
    ensures Replay(m, phases, s, Schedule(phases, a, b)) ==
      StepEdge(m, phases, Replay(m, phases, s, Schedule(phases, a, b - 1)), EdgeAt(phases, b))
  {
    var e, before := EdgeAt(phases, b), Schedule(phases, a, b - 1);
    assert Schedule(phases, a, b) == if e.cpu || e.rcp then before + [e] else before;
    assert (before + [e])[..|before|] == before;
    hide IsEdge, Schedule;
  }

  /** There is such a list. */
  lemma {:induction false} SomethingInOrder(phases: Phases, from: nat, until: nat) returns (dues: seq<Due>)
    ensures InOrder(phases, from, until, dues)
    decreases until
  {
    if until <= from {
      dues := [];
    } else {
      var before := SomethingInOrder(phases, from, until - 1);
      dues := before + DueAt(phases, until);
      hide IsEdge;
      forall d: Due
        ensures d in dues <==> from < d.tick <= until && IsDue(phases, d)
      {
        assert d in dues <==> d in before || d in DueAt(phases, until);
      }
      forall i, j | 0 <= i < j < |dues|
        ensures Precedes(dues[i], dues[j])
      {
        if i < |before| {
          assert before[i] in before;
        }
      }
    }
  }

  /** What is due at one tick, in order. */
  function DueAt(phases: Phases, tick: nat): (dues: seq<Due>)
    ensures forall d: Due :: d in dues <==> d.tick == tick && IsDue(phases, d)
    ensures forall i, j :: 0 <= i < j < |dues| ==> Precedes(dues[i], dues[j])
    ensures forall i :: 0 <= i < |dues| ==> dues[i].tick == tick
  {
    (if IsDue(phases, CpuDue(tick)) then [CpuDue(tick)] else []) +
    (if IsDue(phases, RcpDue(tick)) then [RcpDue(tick)] else [])
  }

  /** Every domain's steps were taken one after the other, in order. */
  ghost predicate TookInOrder<S>(m: Machine<S>, phases: Phases, from: nat, s: S, until: nat, now: S) {
    exists dues :: InOrder(phases, from, until, dues) && now == TakenAll(m, phases, s, dues)
  }

  lemma ReplayTookInOrder<S>(m: Machine<S>, phases: Phases, from: nat, s: S, until: nat)
    ensures TookInOrder(m, phases, from, s, until, Replay(m, phases, s, Schedule(phases, from, until)))
  {
    hide InOrder, TakenAll, Schedule, Replay;
    var dues := SomethingInOrder(phases, from, until);
    ReplayTakesInOrder(m, phases, s, from, until, dues);
  }

  // ----- what an instruction-paced run does

  /** An instruction issued, an RCP step taken, or idle pairs retired in bulk. */
  datatype Happening = Issued(tick: nat) | RcpStepped(tick: nat) | PairsRetired(tick: nat, pairs: nat)

  function Performed<S>(m: Machine<S>, phases: Phases, s: S, h: Happening): S {
    match h
    case Issued(tick) => m.instruction(s, CountTicks(phases, tick)).0
    case RcpStepped(tick) => m.rcpStep(s, tick)
    case PairsRetired(_, pairs) => m.retirePairs(s, pairs)
  }

  function Perform<S>(m: Machine<S>, phases: Phases, s: S, log: seq<Happening>): S {
    if log == [] then s
    else
      var n := |log| - 1;
      Performed(m, phases, Perform(m, phases, s, log[..n]), log[n])
  }

  /** The ticks of the RCP steps, in order. */
  function RcpTicks(log: seq<Happening>): seq<nat> {
    if log == [] then []
    else
      var n := |log| - 1;
      RcpTicks(log[..n]) + if log[n].RcpStepped? then [log[n].tick] else []
  }

  function UnitsOf(h: Happening): nat {
    match h
    case Issued(_) => 1
    case RcpStepped(_) => 0
    case PairsRetired(_, pairs) => pairs
  }

  /** Instructions issued or retired. */
  function Units(log: seq<Happening>): nat {
    if log == [] then 0 else Units(log[..|log| - 1]) + UnitsOf(log[|log| - 1])
  }

  /** The master ticks the instruction issued in state s at `tick` takes. */
  function SpanOf<S>(m: Machine<S>, phases: Phases, s: S, tick: nat): nat {
    CPU_DIVIDER * Max(m.instruction(s, CountTicks(phases, tick)).1, 1)
  }

  /** An instruction takes as long as its cycles do, two ticks each, and a costless one as long as one
      cycle: it ends as many CPU edges on as it cost. */
  lemma SpanIsItsCycles<S>(m: Machine<S>, phases: Phases, s: S, tick: nat)
    ensures
      var cost := m.instruction(s, CountTicks(phases, tick)).1;
      CpuCycles(phases, tick + SpanOf(m, phases, s, tick)) ==
        CpuCycles(phases, tick) + if cost == 0 then 1 else cost
    ensures SpanOf(m, phases, s, tick) % 2 == 0
  {
  }

  /** Index of the last thing the CPU did, or -1. */
  function LastCpu(log: seq<Happening>): (i: int)
    ensures -1 <= i < |log| && (0 <= i ==> !log[i].RcpStepped?)
  {
    if log == [] then -1
    else if log[|log| - 1].RcpStepped? then LastCpu(log[..|log| - 1])
    else |log| - 1
  }

  /** The tick up to which the CPU's time is spoken for. */
  function CpuEnd<S>(m: Machine<S>, phases: Phases, s: S, from: nat, log: seq<Happening>): nat {
    if log == [] then from
    else
      var n := |log| - 1;
      match log[n]
      case Issued(tick) => tick + SpanOf(m, phases, Perform(m, phases, s, log[..n]), tick)
      case PairsRetired(tick, _) => tick
      case RcpStepped(_) => CpuEnd(m, phases, s, from, log[..n])
  }

  /** Everything happens inside [from, until], in the order of its ticks. */
  ghost predicate Chronological(log: seq<Happening>, from: nat, until: nat) {
    (forall i :: 0 <= i < |log| ==> from <= log[i].tick <= until) &&
    (forall i, j :: 0 <= i < j < |log| ==> log[i].tick <= log[j].tick)
  }

  /** The CPU was waiting for the RCP: it is halted, and the last step landed here. */
  ghost predicate Waited<S>(m: Machine<S>, phases: Phases, s: S, log: seq<Happening>, tick: nat) {
    log != [] && log[|log| - 1] == RcpStepped(tick) && m.halted(Perform(m, phases, s, log[..|log| - 1]))
  }

  /** The last b entries of the log apart, the CPU was parked when its last span ended, with a timer
      that left room for `pairs`; only RCP steps came after. */
  ghost predicate ParkedAt<S>(m: Machine<S>, phases: Phases, s: S, from: nat, log: seq<Happening>, pairs: nat, b: nat)
    requires b <= |log|
  {
    var at, end := Perform(m, phases, s, log[..b]), CpuEnd(m, phases, s, from, log);
    m.parked(at) && pairs <= m.timer(at).Bound() && (0 < b ==> log[b - 1].tick <= end) &&
    forall k :: b <= k < |log| ==> log[k].RcpStepped? && end < log[k].tick
  }

  /** The log up to and including `tick`. */
  function Until(log: seq<Happening>, tick: nat): seq<Happening> {
    if log == [] || log[|log| - 1].tick <= tick then log else Until(log[..|log| - 1], tick)
  }

  /** An instruction boundary here would find something the RCP raised. */
  predicate Raised<S>(m: Machine<S>, s: S) {
    m.irq(s) || m.halted(s)
  }

  /** Nothing is raised at the boundary k pairs after `start`. */
  predicate QuietBoundary<S>(m: Machine<S>, phases: Phases, s: S, log: seq<Happening>, start: nat, k: nat) {
    !Raised(m, Perform(m, phases, s, Until(log, start + PAIR_TICKS * k)))
  }

  /** Nothing is raised at any boundary from the first-th pair to the one before the last. */
  ghost predicate QuietFrom<S>(m: Machine<S>, phases: Phases, s: S, log: seq<Happening>, start: nat,
                               first: nat, pairs: nat) {
    forall k :: first <= k < pairs ==> QuietBoundary(m, phases, s, log, start, k)
  }

  /** What may come next. An instruction starts where the span before it ended, or where a halted
      CPU was let go; a batch of pairs covers its own pairs from where the instruction before it
      ended, and goes on past a pair only while nothing is raised there. Neither leaves a gap and
      neither overlaps. Either finds the RCP exactly as far as its own tick. */
  ghost predicate SpacedNext<S>(m: Machine<S>, phases: Phases, s: S, from: nat, log: seq<Happening>, h: Happening) {
    var end := CpuEnd(m, phases, s, from, log);
    match h
    case RcpStepped(_) => true
    case Issued(tick) =>
      RcpTicks(log) == RcpEdges(phases, from, tick) &&
      !m.halted(Perform(m, phases, s, log)) && (tick == end || (end < tick && Waited(m, phases, s, log, tick)))
    case PairsRetired(tick, pairs) =>
      RcpTicks(log) == RcpEdges(phases, from, tick) &&
      0 < pairs && tick == end + PAIR_TICKS * pairs && 0 <= LastCpu(log) && log[LastCpu(log)].Issued? &&
      QuietFrom(m, phases, s, log, end, 1, pairs) &&
      exists b :: 0 <= b <= |log| && ParkedAt(m, phases, s, from, log, pairs, b)
  }

  ghost predicate Spaced<S>(m: Machine<S>, phases: Phases, s: S, from: nat, log: seq<Happening>) {
    forall i :: 0 <= i < |log| ==> SpacedNext(m, phases, s, from, log[..i], log[i])
  }

  lemma SpacedAppend<S>(m: Machine<S>, phases: Phases, s: S, from: nat, log: seq<Happening>, h: Happening)
    requires Spaced(m, phases, s, from, log) && SpacedNext(m, phases, s, from, log, h)
    ensures Spaced(m, phases, s, from, log + [h])
  {
    hide SpacedNext;
    var more := log + [h];
    forall i | 0 <= i < |more| ensures SpacedNext(m, phases, s, from, more[..i], more[i]) {
      if i < |log| {
        assert more[..i] == log[..i] && more[i] == log[i];
      } else {
        assert more[..i] == log;
      }
    }
  }

  lemma OneMore<S>(m: Machine<S>, phases: Phases, s: S, from: nat, log: seq<Happening>, h: Happening)
    ensures Perform(m, phases, s, log + [h]) == Performed(m, phases, Perform(m, phases, s, log), h)
    ensures RcpTicks(log + [h]) == RcpTicks(log) + if h.RcpStepped? then [h.tick] else []
    ensures Units(log + [h]) == Units(log) + UnitsOf(h)
    ensures LastCpu(log + [h]) == if h.RcpStepped? then LastCpu(log) else |log|
    ensures CpuEnd(m, phases, s, from, log + [h]) ==
      match h
      case Issued(tick) => tick + SpanOf(m, phases, Perform(m, phases, s, log), tick)
      case PairsRetired(tick, _) => tick
      case RcpStepped(_) => CpuEnd(m, phases, s, from, log)
  {
    assert (log + [h])[..|log|] == log;
  }

  lemma {:induction false} PerformAppends<S>(m: Machine<S>, phases: Phases, s: S, a: seq<Happening>, b: seq<Happening>)
    ensures Perform(m, phases, s, a + b) == Perform(m, phases, Perform(m, phases, s, a), b)
    decreases |b|
  {
    if b == [] {
      assert a + b == a;
    } else {
      var n := |b| - 1;
      PerformAppends(m, phases, s, a, b[..n]);
      assert (a + b)[..|a + b| - 1] == a + b[..n];
      hide Performed;
    }
  }

  lemma {:induction false} CountsAppend(a: seq<Happening>, b: seq<Happening>)
    ensures RcpTicks(a + b) == RcpTicks(a) + RcpTicks(b)
    ensures Units(a + b) == Units(a) + Units(b)
    decreases |b|
  {
    if b == [] {
      assert a + b == a;
    } else {
      var n := |b| - 1;
      CountsAppend(a, b[..n]);
      assert (a + b)[..|a + b| - 1] == a + b[..n];
      hide UnitsOf;
    }
  }

  /** A run in two parts: state, RCP steps and instruction count. */
  lemma LogsAppend<S>(m: Machine<S>, phases: Phases, s: S, a: seq<Happening>, b: seq<Happening>)
    ensures Perform(m, phases, s, a + b) == Perform(m, phases, Perform(m, phases, s, a), b)
    ensures RcpTicks(a + b) == RcpTicks(a) + RcpTicks(b)
    ensures Units(a + b) == Units(a) + Units(b)
  {
    PerformAppends(m, phases, s, a, b);
    CountsAppend(a, b);
    hide *;
  }

  /** The CPU's time is spoken for by the last thing it did. */
  lemma {:induction false} CpuEndIsLast<S>(m: Machine<S>, phases: Phases, s: S, from: nat, log: seq<Happening>)
    ensures
      var i := LastCpu(log);
      CpuEnd(m, phases, s, from, log) ==
        if i < 0 then from
        else if log[i].Issued? then log[i].tick + SpanOf(m, phases, Perform(m, phases, s, log[..i]), log[i].tick)
        else log[i].tick
    ensures forall k :: LastCpu(log) < k < |log| ==> log[k].RcpStepped?
  {
    if log != [] && log[|log| - 1].RcpStepped? {
      var before := log[..|log| - 1];
      CpuEndIsLast(m, phases, s, from, before);
      var i := LastCpu(before);
      if 0 <= i {
        assert before[..i] == log[..i];
      }
    }
  }

  // ----- what a batch of skipped polls does to the timer

  /** An instruction polls the timer before anything else, and re-bases the detector where it stands
      if it writes `Count` or `Compare`; the RCP does not touch it. */
  ghost predicate KeepsTime<S(!new)>(m: Machine<S>) {
    (forall s, count :: m.timer(m.instruction(s, count).0).PolledAt(count)) &&
    (forall s, tick :: m.timer(m.rcpStep(s, tick)) == m.timer(s))
  }

  /** RCP steps leave the timer as it was. */
  lemma {:induction false} TimerSince<S(!new)>(m: Machine<S>, phases: Phases, s: S, log: seq<Happening>, b: nat)
    requires KeepsTime(m) && b <= |log| && forall k :: b <= k < |log| ==> log[k].RcpStepped?
    ensures m.timer(Perform(m, phases, s, log)) == m.timer(Perform(m, phases, s, log[..b]))
    decreases |log|
  {
    if b == |log| {
      assert log[..b] == log;
    } else {
      var before := log[..|log| - 1];
      TimerSince(m, phases, s, before, b);
      assert before[..b] == log[..b];
    }
  }

  /** The timer a batch runs under was last polled by the instruction before it, which ended where
      the batch starts. */
  lemma BatchFollowsPoll<S(!new)>(m: Machine<S>, phases: Phases, s: S, from: nat, log: seq<Happening>, h: Happening)
    requires KeepsTime(m) && SpacedNext(m, phases, s, from, log, h) && h.PairsRetired?
    ensures
      var j, timer := LastCpu(log), m.timer(Perform(m, phases, s, log));
      0 <= j && log[j].Issued? && log[j].tick <= h.tick - PAIR_TICKS * h.pairs && 0 < h.pairs &&
      timer.PolledAt(CountTicks(phases, log[j].tick)) && h.pairs <= timer.Bound()
  {
    var b :| 0 <= b <= |log| && ParkedAt(m, phases, s, from, log, h.pairs, b);
    CpuEndIsLast(m, phases, s, from, log);
    TimerSince(m, phases, s, log, b);
    PolledAtIssue(m, phases, s, from, log);
    hide Perform, CpuEnd, LastCpu, CountTicks, KeepsTime;
  }

  lemma PolledAtIssue<S(!new)>(m: Machine<S>, phases: Phases, s: S, from: nat, log: seq<Happening>)
    requires KeepsTime(m) && 0 <= LastCpu(log) && log[LastCpu(log)].Issued?
    ensures m.timer(Perform(m, phases, s, log)).PolledAt(CountTicks(phases, log[LastCpu(log)].tick))
  {
    var j := LastCpu(log);
    CpuEndIsLast(m, phases, s, from, log);
    TimerSince(m, phases, s, log, j + 1);
    OneMore(m, phases, s, from, log[..j], log[j]);
    assert log[..j + 1] == log[..j] + [log[j]];
    hide Perform, CpuEnd, LastCpu, CountTicks;
  }

  /** Every batch of every run: the timer's interrupt is not delayed exactly when the batch ends no
      later than the first match, counted from the poll of the instruction before it. */
  lemma BatchDelaysTimerIff<S(!new)>(m: Machine<S>, phases: Phases, s: S, from: nat, log: seq<Happening>, i: nat)
    requires KeepsTime(m) && Spaced(m, phases, s, from, log) && i < |log| && log[i].PairsRetired?
    ensures
      var j, timer := LastCpu(log[..i]), m.timer(Perform(m, phases, s, log[..i]));
      0 <= j && log[j].Issued? && log[j].tick <= log[i].tick - PAIR_TICKS * log[i].pairs &&
      var polled, start := CountTicks(phases, log[j].tick),
                           CountTicks(phases, log[i].tick - PAIR_TICKS * log[i].pairs);
      polled <= start && timer.PolledAt(polled) && log[i].pairs <= timer.Bound() &&
      (timer.OnTime(polled, start, log[i].pairs) <==>
       CountTicks(phases, log[i].tick) - polled <= timer.FirstMatch())
  {
    var before := log[..i];
    assert SpacedNext(m, phases, s, from, before, log[i]);
    BatchFollowsPoll(m, phases, s, from, before, log[i]);
    var polled := log[LastCpu(before)].tick;
    var start := log[i].tick - PAIR_TICKS * log[i].pairs;
    PairIsOneCountTick(phases, start, log[i].pairs);
    CountTicksMonotone(phases, polled, start);
    hide *;
    SkippingIsOnTimeIff(m.timer(Perform(m, phases, s, before)), CountTicks(phases, polled),
                        CountTicks(phases, start), log[i].pairs);
  }

  lemma CountTicksMonotone(phases: Phases, a: nat, b: nat)
    requires a <= b
    ensures CountTicks(phases, a) <= CountTicks(phases, b)
  {
  }

  /** An instruction of two cycles or more, and recognizing the idle loop takes one, moves `Count`. */
  lemma TwoCyclesMoveCount(phases: Phases, tick: nat, cycles: nat)
    ensures cycles >= 2 ==> CountTicks(phases, tick) < CountTicks(phases, tick + CPU_DIVIDER * cycles)
    ensures CountTicks(phases, tick) <= CountTicks(phases, tick + CPU_DIVIDER * cycles)
  {
  }

  /** Three pairs fill the bound, but the two-cycle instruction before them had already used one
      `Count` tick of it: the batch ends at 4, and `Compare` was met at 3. */
  lemma FullBatchEndsOneTickLate()
    ensures
      var timer, phases := TimerView(0, 0, 3, 0), Phases(0, 0);
      timer.PolledAt(CountTicks(phases, 0)) && timer.Bound() == timer.FirstMatch() == 3 &&
      CountTicks(phases, CPU_DIVIDER * 2) == 1 && CountTicks(phases, CPU_DIVIDER * 2 + PAIR_TICKS * 3) == 4 &&
      !timer.OnTime(0, 1, 3)
  {
    SkippingIsOnTimeIff(TimerView(0, 0, 3, 0), 0, 1, 3);
  }

  // ----- what a batch of skipped boundaries does to the RCP's events

  /** Every batch of every run ends at the first boundary after its start at which something is
      raised, or before it: it skips no event exactly when nothing was raised at the boundary it
      starts on, the one boundary it never looks at. */
  lemma BatchSkipsNoEventIff<S>(m: Machine<S>, phases: Phases, s: S, from: nat, log: seq<Happening>, i: nat)
    requires Spaced(m, phases, s, from, log) && i < |log| && log[i].PairsRetired?
    ensures
      var before, pairs := log[..i], log[i].pairs;
      PAIR_TICKS * pairs <= log[i].tick && 0 < pairs &&
      var start := log[i].tick - PAIR_TICKS * pairs;
      start == CpuEnd(m, phases, s, from, before) &&
      QuietFrom(m, phases, s, before, start, 1, pairs) &&
      (QuietFrom(m, phases, s, before, start, 0, pairs) <==> QuietBoundary(m, phases, s, before, start, 0))
  {
    var before, pairs := log[..i], log[i].pairs;
    assert SpacedNext(m, phases, s, from, before, log[i]);
    hide CpuEnd, Perform, LastCpu, Spaced, Until;
    QuietFromZeroIff(m, phases, s, before, CpuEnd(m, phases, s, from, before), pairs);
    hide *;
  }

  lemma QuietFromZeroIff<S>(m: Machine<S>, phases: Phases, s: S, log: seq<Happening>, start: nat, pairs: nat)
    requires 0 < pairs && QuietFrom(m, phases, s, log, start, 1, pairs)
    ensures QuietFrom(m, phases, s, log, start, 0, pairs) <==> QuietBoundary(m, phases, s, log, start, 0)
  {
    hide QuietBoundary;
  }

  /** A parked CPU, and an RCP that raises its interrupt on its first step. */
  function RaisingMachine(): Machine<bool> {
    Machine((s, _) => s, (_, _) => true, _ => false, (s, _) => (s, 2), _ => true,
            _ => TimerView(0, 0, 100, 0), s => s, (s, _) => s)
  }

  /** What the example's log has come to: its state, and the tick the CPU is busy until. */
  ghost predicate Came(m: Machine<bool>, log: seq<Happening>, raised: bool, end: nat) {
    Spaced(m, Phases(0, 0), false, 0, log) && Perform(m, Phases(0, 0), false, log) == raised &&
    CpuEnd(m, Phases(0, 0), false, 0, log) == end
  }

  lemma RcpRaises(m: Machine<bool>, log: seq<Happening>, raised: bool, end: nat, tick: nat)
    requires m == RaisingMachine() && Came(m, log, raised, end)
    ensures Came(m, log + [RcpStepped(tick)], true, end)
    ensures LastCpu(log + [RcpStepped(tick)]) == LastCpu(log)
  {
    var phases := Phases(0, 0);
    assert SpacedNext(m, phases, false, 0, log, RcpStepped(tick));
    hide Spaced, SpacedNext, Perform, CpuEnd, LastCpu;
    SpacedAppend(m, phases, false, 0, log, RcpStepped(tick));
    OneMore(m, phases, false, 0, log, RcpStepped(tick));
  }

  lemma FirstInstruction(m: Machine<bool>)
    requires m == RaisingMachine()
    ensures Came(m, [Issued(0)], false, 4) && LastCpu([Issued(0)]) == 0
  {
    NothingLogged(m, Phases(0, 0), false);
    assert !m.halted(false) && m.instruction(false, CountTicks(Phases(0, 0), 0)) == (false, 2);
    hide RaisingMachine, Perform, CpuEnd, LastCpu, Spaced, CountTicks;
    FirstIssue(m, Phases(0, 0), false);
    assert [] + [Issued(0)] == [Issued(0)];
  }

  lemma NothingLogged<S>(m: Machine<S>, phases: Phases, s: S)
    ensures Spaced(m, phases, s, 0, []) && Perform(m, phases, s, []) == s && CpuEnd(m, phases, s, 0, []) == 0
    ensures LastCpu([]) == -1
  {
  }

  /** A log that begins with an instruction. */
  lemma FirstIssue<S>(m: Machine<S>, phases: Phases, s: S)
    requires !m.halted(s)
    ensures
      var log := [] + [Issued(0)];
      Spaced(m, phases, s, 0, log) && LastCpu(log) == 0 &&
      Perform(m, phases, s, log) == m.instruction(s, CountTicks(phases, 0)).0 &&
      CpuEnd(m, phases, s, 0, log) == CPU_DIVIDER * Max(m.instruction(s, CountTicks(phases, 0)).1, 1)
  {
    NothingLogged(m, phases, s);
    hide Perform, CpuEnd, LastCpu, Spaced, CountTicks;
    assert SpacedNext(m, phases, s, 0, [], Issued(0));
    SpacedAppend(m, phases, s, 0, [], Issued(0));
    OneMore(m, phases, s, 0, [], Issued(0));
  }

  /** The RCP raises the interrupt at tick 3, inside the instruction's own span; at tick 4, where the
      instruction ends, the batch starts all the same, and the next boundary is at tick 8. */
  lemma EventInsideTheInstructionWaitsAPair(m: Machine<bool>)
    requires m == RaisingMachine()
    ensures
      var before := [Issued(0)] + [RcpStepped(3)] + [RcpStepped(6)];
      Came(m, before + [PairsRetired(8, 1)], true, 8) &&
      RcpTicks(before + [PairsRetired(8, 1)]) == RcpEdges(Phases(0, 0), 0, 8) &&
      !QuietBoundary(m, Phases(0, 0), false, before, 4, 0)
  {
    var phases := Phases(0, 0);
    var first := [Issued(0)] + [RcpStepped(3)];
    var before := first + [RcpStepped(6)];
    FirstInstruction(m);
    RcpRaises(m, [Issued(0)], false, 4, 3);
    RcpRaises(m, first, true, 4, 6);
    EdgesToEight();
    assert RcpTicks(before) == RcpTicks(before + [PairsRetired(8, 1)]) == [3, 6] by {
      CountsAppend([Issued(0)], [RcpStepped(3)]);
      CountsAppend(first, [RcpStepped(6)]);
      CountsAppend(before, [PairsRetired(8, 1)]);
    }
    assert before[..2] == first;
    assert Until(first, 4) == first && Until(before, 4) == first;
    ParkedBatchComes(m, first, before);
  }

  lemma ParkedBatchComes(m: Machine<bool>, first: seq<Happening>, before: seq<Happening>)
    requires m == RaisingMachine() && Came(m, first, true, 4) && Came(m, before, true, 4)
    requires |first| == 2 && first[0].Issued? && first[1] == RcpStepped(3) && before == first + [RcpStepped(6)]
    requires LastCpu(before) == 0 && RcpTicks(before) == RcpEdges(Phases(0, 0), 0, 8)
    ensures Came(m, before + [PairsRetired(8, 1)], true, 8)
  {
    var phases, batch := Phases(0, 0), PairsRetired(8, 1);
    assert before[..2] == first;
    assert ParkedAt(m, phases, false, 0, before, 1, 2);
    assert SpacedNext(m, phases, false, 0, before, batch);
    hide Spaced, SpacedNext, Perform, CpuEnd, LastCpu, ParkedAt;
    SpacedAppend(m, phases, false, 0, before, batch);
    OneMore(m, phases, false, 0, before, batch);
  }

  lemma EdgesToEight()
    ensures RcpEdges(Phases(0, 0), 0, 8) == [3, 6]
  {
    var phases := Phases(0, 0);
    assert RcpEdges(phases, 0, 2) == [];
    assert RcpEdges(phases, 0, 4) == [3];
    assert RcpEdges(phases, 0, 6) == [3, 6];
  }

  // ----- the run loops

  /** Why the fast loop handed a stretch to the accurate one. */
  datatype BailOut = PartialPeriodTail

  datatype FastRunReport = FastRunReport(workUnits: nat, bailed: set<BailOut>)

  class System<!S> {
    const machine: Machine<S>
    const phases: SeededPhases
    var masterTicks: u64
    var state: S
    /** The steps taken so far: ticks at which a domain was stepped and which ones were due. */
    ghost var trace: seq<Edge>

    constructor (machine: Machine<S>, phases: SeededPhases, state: S)
      ensures this.machine == machine && this.phases == phases && this.state == state
      ensures masterTicks == 0 && trace == []
    {
      this.machine, this.phases, this.state := machine, phases, state;
      masterTicks, trace := 0, [];
    }

    method NextEdge() returns (next: u64)
      requires masterTicks <= LAST_TARGET
      ensures masterTicks < next
      ensures EdgeAt(phases, next).cpu || EdgeAt(phases, next).rcp
      ensures Quiet(masterTicks, next - 1)
    {
      var nextCpu := NextEdgeAfter(masterTicks, phases.cpu, CPU_DIVIDER);
      var nextRcp := NextEdgeAfter(masterTicks, phases.rcp, RCP_DIVIDER);
      next := if nextCpu < nextRcp then nextCpu else nextRcp;
    }

    /** Step the domains the caller has determined are due here, CPU before RCP. */
    method StepDomains(cpu: bool, rcp: bool)
      requires EdgeAt(phases, masterTicks) == Edge(masterTicks, cpu, rcp)
      modifies this`state, this`trace
      ensures state == StepEdge(machine, phases, old(state), Edge(masterTicks, cpu, rcp))
      ensures trace == old(trace) + [Edge(masterTicks, cpu, rcp)]
      ensures
        var s, count := old(state), CountTicks(phases, masterTicks);
        var runs := cpu && !machine.halted(s);
        (runs && rcp ==> state == machine.rcpStep(machine.cpuTick(s, count), masterTicks)) &&
        (runs && !rcp ==> state == machine.cpuTick(s, count)) &&
        (!runs && rcp ==> state == machine.rcpStep(s, masterTicks)) &&
        (!runs && !rcp ==> state == s)
    {
      if cpu && !machine.halted(state) {
        var countNow := CountTicks(phases, masterTicks);
        state := machine.cpuTick(state, countNow);
      }
      if rcp {
        state := machine.rcpStep(state, masterTicks);
      }
      trace := trace + [Edge(masterTicks, cpu, rcp)];
    }

    method StepDueHere()
      modifies this`state, this`trace
      ensures state == StepEdge(machine, phases, old(state), EdgeAt(phases, masterTicks))
      ensures trace == old(trace) + [EdgeAt(phases, masterTicks)]
    {
      var cpu := IsEdge(masterTicks, phases.cpu, CPU_DIVIDER);
      var rcp := IsEdge(masterTicks, phases.rcp, RCP_DIVIDER);
      StepDomains(cpu, rcp);
    }

    /** What a run from `from` in state `s` with trace `t` must have reached at tick `to`. */
    ghost predicate Reached(from: nat, s: S, t: seq<Edge>, until: nat)
      reads this
    {
      trace == t + Schedule(phases, from, until) &&
      state == Replay(machine, phases, s, Schedule(phases, from, until))
    }

    /** Landing on the next edge and stepping it extends what was reached. */
    lemma EdgeReached(from: nat, s: S, t: seq<Edge>, now: nat, next: nat)
      requires from <= now < next
      requires Quiet(now, next - 1)
      requires EdgeAt(phases, next).cpu || EdgeAt(phases, next).rcp
      ensures Schedule(phases, from, next) == Schedule(phases, from, now) + [EdgeAt(phases, next)]
      ensures Replay(machine, phases, s, Schedule(phases, from, next))
           == StepEdge(machine, phases, Replay(machine, phases, s, Schedule(phases, from, now)), EdgeAt(phases, next))
    {
      QuietStretch(phases, from, now, next - 1);
      var before := Schedule(phases, from, now);
      assert (before + [EdgeAt(phases, next)])[..|before|] == before;
    }

    /** `run_until`: every edge in (now, target], and not one past it. */
    method RunUntil(target: u64)
      requires target <= LAST_TARGET && masterTicks <= LAST_TARGET
      modifies this`masterTicks, this`state, this`trace
      ensures masterTicks == Max(old(masterTicks), target)
      ensures Reached(old(masterTicks), old(state), old(trace), target)
      ensures TookInOrder(machine, phases, old(masterTicks), old(state), target, state)
    {
      hide IsEdge, StepEdge;
      ghost var from, s, t := masterTicks, state, trace;
      var next := NextEdge();
      while next <= target
        invariant from <= masterTicks <= Max(from, target)
        invariant Reached(from, s, t, masterTicks)
        invariant masterTicks < next
        invariant EdgeAt(phases, next).cpu || EdgeAt(phases, next).rcp
        invariant Quiet(masterTicks, next - 1)
        decreases target - masterTicks
      {
        EdgeReached(from, s, t, masterTicks, next);
        masterTicks := next;
        StepDueHere();
        next := NextEdge();
      }
      if masterTicks < target {
        QuietStretch(phases, from, masterTicks, target);
        masterTicks := target;
      }
      ReplayTookInOrder(machine, phases, from, s, target);
      hide TookInOrder;
    }

    /** One period replayed from its precomputed shape, landing on each edge inside it. */
    method ReplayPeriod(pattern: array<(bool, bool)>, base: nat, ghost from: nat, ghost s: S,
                        ghost t: seq<Edge>)
      requires pattern.Length == EDGE_PERIOD
      requires forall j :: 0 <= j < EDGE_PERIOD ==>
        pattern[j] == (EdgeAt(phases, base + j + 1).cpu, EdgeAt(phases, base + j + 1).rcp)
      requires base + EDGE_PERIOD <= U64_MAX
      requires from <= masterTicks <= base && Reached(from, s, t, base)
      requires Quiet(masterTicks, base)
      modifies this`masterTicks, this`state, this`trace
      ensures old(masterTicks) <= masterTicks <= base + EDGE_PERIOD
      ensures Reached(from, s, t, base + EDGE_PERIOD) && Quiet(masterTicks, base + EDGE_PERIOD)
    {
      for i := 0 to EDGE_PERIOD
        invariant old(masterTicks) <= masterTicks <= base + i
        invariant Reached(from, s, t, base + i) && Quiet(masterTicks, base + i)
      {
        var (cpu, rcp) := pattern[i];
        ReplayTick(base + i + 1, cpu, rcp, from, s, t);
      }
    }

    /** One tick of a replayed period. */
    method ReplayTick(tick: u64, cpu: bool, rcp: bool, ghost from: nat, ghost s: S, ghost t: seq<Edge>)
      requires from <= masterTicks < tick && Reached(from, s, t, tick - 1)
      requires Quiet(masterTicks, tick - 1)
      requires EdgeAt(phases, tick) == Edge(tick, cpu, rcp)
      modifies this`masterTicks, this`state, this`trace
      ensures old(masterTicks) <= masterTicks <= tick
      ensures Reached(from, s, t, tick) && Quiet(masterTicks, tick)
    {
      hide IsEdge, Replay, StepEdge;
      if cpu || rcp {
        EdgeReached(from, s, t, tick - 1, tick);
        masterTicks := tick;
        StepDomains(cpu, rcp);
      } else {
        QuietStretch(phases, from, tick - 1, tick);
      }
    }

    /** No domain is due in (from, until]. */
    ghost predicate Quiet(from: nat, until: nat) {
      forall u :: from < u <= until ==> !EdgeAt(phases, u).cpu && !EdgeAt(phases, u).rcp
    }

    /** The shape of one period after the current tick. */
    method Pattern() returns (pattern: array<(bool, bool)>)
      ensures fresh(pattern) && pattern.Length == EDGE_PERIOD
      ensures forall j :: 0 <= j < EDGE_PERIOD ==>
        pattern[j] == (EdgeAt(phases, masterTicks + j + 1).cpu, EdgeAt(phases, masterTicks + j + 1).rcp)
    {
      pattern := new (bool, bool)[EDGE_PERIOD](_ => (false, false));
      for i := 0 to EDGE_PERIOD
        invariant forall j :: 0 <= j < i ==>
          pattern[j] == (EdgeAt(phases, masterTicks + j + 1).cpu, EdgeAt(phases, masterTicks + j + 1).rcp)
      {
        var tick := masterTicks + (i + 1);
        pattern[i] := (IsEdge(tick, phases.cpu, CPU_DIVIDER), IsEdge(tick, phases.rcp, RCP_DIVIDER));
      }
    }

    /** `run_until_fast`: replays one precomputed period per block and leaves the tail to the
        accurate loop. It reaches exactly what `RunUntil` reaches. */
    method RunUntilFast(target: u64) returns (report: FastRunReport)
      requires target <= LAST_TARGET && masterTicks <= LAST_TARGET
      modifies this`masterTicks, this`state, this`trace
      ensures masterTicks == Max(old(masterTicks), target)
      ensures Reached(old(masterTicks), old(state), old(trace), target)
      ensures TookInOrder(machine, phases, old(masterTicks), old(state), target, state)
      ensures report.workUnits == SaturatingSub(target, old(masterTicks)) / EDGE_PERIOD
      ensures report.bailed ==
        if SaturatingSub(target, old(masterTicks)) % EDGE_PERIOD != 0 then {PartialPeriodTail} else {}
    {
      hide IsEdge, EdgeAt, StepEdge, Replay, TookInOrder;
      ReplayNothing(machine, phases, state);
      if target <= masterTicks {
        ReplayTookInOrder(machine, phases, masterTicks, state, target);
        return FastRunReport(0, {});
      }
      ghost var from, s, t := masterTicks, state, trace;
      var pattern := Pattern();
      var base, blocks := masterTicks, 0;
      while base + EDGE_PERIOD <= target
        invariant base == from + EDGE_PERIOD * blocks <= target
        invariant from <= masterTicks <= base
        invariant Quiet(masterTicks, base)
        invariant Reached(from, s, t, base)
        invariant forall j :: 0 <= j < EDGE_PERIOD ==>
          pattern[j] == (EdgeAt(phases, from + j + 1).cpu, EdgeAt(phases, from + j + 1).rcp)
        decreases target - base
      {
        forall j | 0 <= j < EDGE_PERIOD
          ensures pattern[j] == (EdgeAt(phases, base + j + 1).cpu, EdgeAt(phases, base + j + 1).rcp)
        {
          EdgeShifts(phases, base + j + 1, from + j + 1, blocks);
        }
        ReplayPeriod(pattern, base, from, s, t);
        base := base + EDGE_PERIOD;
        blocks := blocks + 1;
      }
      var bailed := if target > base then {PartialPeriodTail} else {};
      QuietStretch(phases, from, masterTicks, base);
      ghost var reachedTick := masterTicks;
      RunUntil(target);
      RunsCompose(machine, phases, s, from, reachedTick, target);
      ScheduleSplits(phases, from, reachedTick, target);
      assert trace == t + Schedule(phases, from, target);
      ReplayTookInOrder(machine, phases, from, s, target);
      return FastRunReport(blocks, bailed);
    }

    // ----- the instruction-paced loop

    /** What was logged over (from, until] takes state s to the machine's, spends the CPU's time
        without gap or overlap, and stepped the RCP on exactly its own edges there. */
    ghost predicate Paced(log: seq<Happening>, from: nat, s: S, until: nat)
      reads this`state
    {
      Chronological(log, from, until) && Spaced(machine, phases, s, from, log) &&
      state == Perform(machine, phases, s, log) &&
      RcpTicks(log) == RcpEdges(phases, from, until)
    }

    ghost function End(log: seq<Happening>, from: nat, s: S): nat {
      CpuEnd(machine, phases, s, from, log)
    }

    /** RCP steps past `after`, and nothing else, have been logged since. */
    ghost predicate Stepped(log: seq<Happening>, more: seq<Happening>, after: nat) {
      |log| <= |more| && more[..|log|] == log &&
      forall k :: |log| <= k < |more| ==> more[k].RcpStepped? && after < more[k].tick
    }

    lemma RcpEdgeReached(from: nat, now: nat, next: nat)
      requires from <= now && next == NextEdgeAfter(now, phases.rcp, RCP_DIVIDER)
      ensures RcpEdges(phases, from, next) == RcpEdges(phases, from, now) + [next]
      ensures forall u :: now <= u < next ==> RcpEdges(phases, from, u) == RcpEdges(phases, from, now)
    {
      forall u | now <= u < next ensures RcpEdges(phases, from, u) == RcpEdges(phases, from, now) {
        QuietRcpStretch(phases, from, now, u);
      }
    }

    /** One RCP step at the current tick. */
    method StepRcp(ghost log: seq<Happening>, ghost from: nat, ghost s: S, ghost now: nat)
        returns (ghost more: seq<Happening>)
      requires from <= now < masterTicks == NextEdgeAfter(now, phases.rcp, RCP_DIVIDER) && Paced(log, from, s, now)
      modifies this`state
      ensures Paced(more, from, s, masterTicks) && Units(more) == Units(log)
      ensures more == log + [RcpStepped(masterTicks)]
      ensures End(more, from, s) == End(log, from, s) && LastCpu(more) == LastCpu(log)
    {
      state := machine.rcpStep(state, masterTicks);
      var h := RcpStepped(masterTicks);
      more := log + [h];
      assert SpacedNext(machine, phases, s, from, log, h);
      hide IsEdge, NextEdgeAfter, RcpEdges, RcpTicks, Perform, Units, CpuEnd, LastCpu, Spaced, SpacedNext;
      RcpEdgeReached(from, now, masterTicks);
      SpacedAppend(machine, phases, s, from, log, h);
      OneMore(machine, phases, s, from, log, h);
    }

    /** The RCP catches up over its own edges, up to and including `end`. */
    method CatchUp(first: u64, end: u64, ghost log: seq<Happening>, ghost from: nat, ghost s: S)
        returns (next: u64, ghost more: seq<Happening>)
      requires from <= masterTicks <= end <= U64_MAX - EDGE_PERIOD
      requires first == NextEdgeAfter(masterTicks, phases.rcp, RCP_DIVIDER)
      requires Paced(log, from, s, masterTicks)
      modifies this`masterTicks, this`state
      ensures masterTicks == end && Paced(more, from, s, end) && Units(more) == Units(log)
      ensures Stepped(log, more, old(masterTicks))
      ensures End(more, from, s) == End(log, from, s) && LastCpu(more) == LastCpu(log)
      ensures next == NextEdgeAfter(end, phases.rcp, RCP_DIVIDER)
    {
      hide IsEdge, RcpEdges, Perform, RcpTicks, Units, CpuEnd, LastCpu, Spaced;
      next, more := first, log;
      while next <= end
        invariant old(masterTicks) <= masterTicks <= end
        invariant next == NextEdgeAfter(masterTicks, phases.rcp, RCP_DIVIDER)
        invariant Paced(more, from, s, masterTicks) && Units(more) == Units(log)
        invariant Stepped(log, more, old(masterTicks))
        invariant End(more, from, s) == End(log, from, s) && LastCpu(more) == LastCpu(log)
        decreases end - masterTicks
      {
        ghost var now := masterTicks;
        masterTicks := next;
        more := StepRcp(more, from, s, now);
        next := NextEdgeAfter(next, phases.rcp, RCP_DIVIDER);
      }
      RcpEdgeReached(from, masterTicks, next);
      NextEdgeStable(masterTicks, end);
      masterTicks := end;
    }

    /** No edge between two ticks: the next edge is the same from both. */
    lemma NextEdgeStable(now: nat, later: nat)
      requires now <= later < NextEdgeAfter(now, phases.rcp, RCP_DIVIDER)
      ensures NextEdgeAfter(later, phases.rcp, RCP_DIVIDER) == NextEdgeAfter(now, phases.rcp, RCP_DIVIDER)
    {
    }

    /** Something the CPU does at the current tick. */
    ghost method Note(h: Happening, log: seq<Happening>, from: nat, s: S, was: S) returns (more: seq<Happening>)
      requires from <= masterTicks && h.tick == masterTicks && !h.RcpStepped?
      requires Chronological(log, from, masterTicks) && was == Perform(machine, phases, s, log)
      requires Spaced(machine, phases, s, from, log) && SpacedNext(machine, phases, s, from, log, h)
      requires RcpTicks(log) == RcpEdges(phases, from, masterTicks)
      requires state == Performed(machine, phases, was, h)
      ensures Paced(more, from, s, masterTicks) && more == log + [h]
      ensures Units(more) == Units(log) + UnitsOf(h) && LastCpu(more) == |log|
      ensures End(more, from, s) ==
        masterTicks + if h.Issued? then SpanOf(machine, phases, was, masterTicks) else 0
    {
      hide RcpEdges, RcpTicks, Perform, Performed, Units, CpuEnd, LastCpu, Spaced, SpacedNext, SpanOf;
      more := log + [h];
      SpacedAppend(machine, phases, s, from, log, h);
      OneMore(machine, phases, s, from, log, h);
    }

    /** Why a batch of `done` idle pairs ended: room and timer were used up, or the RCP raised
        something at the boundary reached. */
    ghost predicate BatchEnded(target: nat, start: nat, was: S, done: nat, at: S) {
      done == Min(SaturatingSub(target, start) / PAIR_TICKS, machine.timer(was).Bound()) ||
      (0 < done && Raised(machine, at))
    }

    /** `run_idle_batch`: idle pairs in bulk. It never passes the target, ends on a pair boundary, and
        the RCP still steps on every one of its edges. It skips the timer polls of its pairs, and
        whether that delays the timer's interrupt depends on how long before the batch the last
        poll was: it does not exactly when the batch ends no later than the first match, counted
        from that poll. */
    method RunIdleBatch(target: u64, ghost log: seq<Happening>, ghost from: nat, ghost s: S, ghost polled: nat)
        returns (done: nat, ghost more: seq<Happening>)
      requires target <= LAST_TARGET && from <= masterTicks && masterTicks <= U64_MAX - EDGE_PERIOD
      requires Paced(log, from, s, masterTicks) && machine.parked(state)
      requires masterTicks == End(log, from, s) && 0 <= LastCpu(log) && log[LastCpu(log)].Issued?
      modifies this`masterTicks, this`state
      ensures Paced(more, from, s, masterTicks) && Units(more) == Units(log) + done
      ensures masterTicks == old(masterTicks) + PAIR_TICKS * done == End(more, from, s)
      ensures done > 0 ==> masterTicks <= target
      ensures done <= machine.timer(old(state)).Bound()
      ensures done == 0 ==> more == log && state == old(state)
      ensures done > 0 ==> LastCpu(more) == |more| - 1 && more[|more| - 1] == PairsRetired(masterTicks, done)
      ensures done > 0 ==> Stepped(log, more[..|more| - 1], old(masterTicks))
      ensures BatchEnded(target, old(masterTicks), old(state), done,
                         Perform(machine, phases, s, if done > 0 then more[..|more| - 1] else more))
      ensures done > 0 ==> QuietFrom(machine, phases, s, more[..|more| - 1], old(masterTicks), 1, done)
      ensures done > 0 ==>
        (QuietFrom(machine, phases, s, more[..|more| - 1], old(masterTicks), 0, done) <==>
         !Raised(machine, old(state)))
      ensures CountTicks(phases, masterTicks) == CountTicks(phases, old(masterTicks)) + done
      ensures machine.timer(old(state)).PolledAt(polled) && polled <= CountTicks(phases, old(masterTicks)) ==>
        (machine.timer(old(state)).OnTime(polled, CountTicks(phases, old(masterTicks)), done) <==>
         done == 0 || CountTicks(phases, masterTicks) - polled <= machine.timer(old(state)).FirstMatch())
    {
      hide IsEdge, RcpEdges, NextEdgeAfter, Perform, RcpTicks, Units, CpuEnd, LastCpu, Spaced, SpacedNext;
      hide QuietFrom, Raised;
      ghost var start, was, t := masterTicks, state, machine.timer(state);
      PairIsOneCountTick(phases, start, 0);
      var room := SaturatingSub(target, masterTicks) / PAIR_TICKS;
      var pairs := Min(room, machine.timer(state).Bound());
      done, more := 0, log;
      if pairs > 0 {
        done, more := SkipPairs(pairs, log, from, s);
        ghost var skipped := more;
        state := machine.retirePairs(state, done);
        QuietFromStartIff(log, skipped, from, s, start, was, done);
        BatchIsSpaced(log, more, from, s, start, was, done);
        more := Note(PairsRetired(masterTicks, done), more, from, s, Perform(machine, phases, s, skipped));
        assert more[..|more| - 1] == skipped;
      }
      PairIsOneCountTick(phases, start, done);
      if t.PolledAt(polled) && polled <= CountTicks(phases, start) {
        SkippingIsOnTimeIff(t, polled, CountTicks(phases, start), done);
      }
      hide CountTicks, Stepped;
    }

    /** The batch's loop: the RCP over up to `pairs` pairs, until it raises something. */
    method SkipPairs(pairs: nat, ghost log: seq<Happening>, ghost from: nat, ghost s: S)
        returns (done: nat, ghost more: seq<Happening>)
      requires 0 < pairs && from <= masterTicks && masterTicks + PAIR_TICKS * pairs <= LAST_TARGET
      requires Paced(log, from, s, masterTicks)
      modifies this`masterTicks, this`state
      ensures 0 < done <= pairs && masterTicks == old(masterTicks) + PAIR_TICKS * done
      ensures Paced(more, from, s, masterTicks) && Units(more) == Units(log)
      ensures Stepped(log, more, old(masterTicks))
      ensures End(more, from, s) == End(log, from, s) && LastCpu(more) == LastCpu(log)
      ensures done == pairs || Raised(machine, state)
      ensures QuietFrom(machine, phases, s, more, old(masterTicks), 1, done)
    {
      hide IsEdge, RcpEdges, NextEdgeAfter, Perform, RcpTicks, Units, CpuEnd, LastCpu, Spaced, Until;
      done, more := 0, log;
      ghost var start := masterTicks;
      var rcp := NextEdgeAfter(masterTicks, phases.rcp, RCP_DIVIDER);
      while done < pairs
        invariant done <= pairs && masterTicks == start + PAIR_TICKS * done
        invariant rcp == NextEdgeAfter(masterTicks, phases.rcp, RCP_DIVIDER)
        invariant Paced(more, from, s, masterTicks) && Units(more) == Units(log)
        invariant Stepped(log, more, start)
        invariant End(more, from, s) == End(log, from, s) && LastCpu(more) == LastCpu(log)
        invariant QuietFrom(machine, phases, s, more, start, 1, done)
        invariant 0 < done ==> !Raised(machine, state)
      {
        ghost var before, now := more, masterTicks;
        UntilNow(before, from, now);
        assert 0 < done ==> QuietBoundary(machine, phases, s, before, start, done);
        rcp, more := CatchUp(rcp, masterTicks + PAIR_TICKS, more, from, s);
        QuietKept(before, more, s, start, done);
        done := done + 1;
        if machine.irq(state) || machine.halted(state) {
          break;
        }
      }
    }

    lemma QuietKept(log: seq<Happening>, more: seq<Happening>, s: S, start: nat, done: nat)
      requires QuietFrom(machine, phases, s, log, start, 1, done)
      requires 0 < done ==> QuietBoundary(machine, phases, s, log, start, done)
      requires Stepped(log, more, start + PAIR_TICKS * done)
      ensures QuietFrom(machine, phases, s, more, start, 1, done + 1)
    {
      forall k | 1 <= k < done + 1 ensures QuietBoundary(machine, phases, s, more, start, k) {
        UntilKept(log, more, start + PAIR_TICKS * done, start + PAIR_TICKS * k);
        assert QuietBoundary(machine, phases, s, log, start, k);
      }
    }

    /** Everything logged by now is the log up to now. */
    lemma UntilNow(log: seq<Happening>, from: nat, now: nat)
      requires Chronological(log, from, now)
      ensures Until(log, now) == log
    {
    }

    /** Later steps leave what was logged up to a tick as it was. */
    lemma {:induction false} UntilKept(log: seq<Happening>, more: seq<Happening>, after: nat, tick: nat)
      requires Stepped(log, more, after) && tick <= after
      ensures Until(more, tick) == Until(log, tick)
      decreases |more|
    {
      if |log| < |more| {
        var before := more[..|more| - 1];
        assert before[..|log|] == log;
        UntilKept(log, before, after, tick);
      } else {
        assert more == log;
      }
    }

    /** Pairs retired over RCP steps alone keep the log spaced. */
    lemma BatchIsSpaced(log: seq<Happening>, more: seq<Happening>, from: nat, s: S, start: nat, was: S, done: nat)
      requires Chronological(log, from, start) && was == Perform(machine, phases, s, log)
      requires machine.parked(was) && 0 < done <= machine.timer(was).Bound()
      requires start == End(log, from, s) == End(more, from, s)
      requires 0 <= LastCpu(log) == LastCpu(more) && log[LastCpu(log)].Issued? && Stepped(log, more, start)
      requires QuietFrom(machine, phases, s, more, start, 1, done)
      requires RcpTicks(more) == RcpEdges(phases, from, start + PAIR_TICKS * done)
      ensures SpacedNext(machine, phases, s, from, more, PairsRetired(start + PAIR_TICKS * done, done))
    {
      assert ParkedAt(machine, phases, s, from, more, done, |log|);
      assert more[LastCpu(log)] == more[..|log|][LastCpu(log)];
      hide Perform, CpuEnd, LastCpu, ParkedAt, QuietFrom, RcpTicks, RcpEdges;
    }

    /** The one boundary a batch skips without looking is its first. */
    lemma QuietFromStartIff(log: seq<Happening>, more: seq<Happening>, from: nat, s: S, start: nat, was: S, done: nat)
      requires Chronological(log, from, start) && was == Perform(machine, phases, s, log)
      requires Stepped(log, more, start) && 0 < done && QuietFrom(machine, phases, s, more, start, 1, done)
      ensures QuietFrom(machine, phases, s, more, start, 0, done) <==> !Raised(machine, was)
    {
      UntilNow(log, from, start);
      UntilKept(log, more, start, start);
      assert QuietBoundary(machine, phases, s, more, start, 0) <==> !Raised(machine, was);
    }

    /** Where the next instruction may be issued. */
    ghost predicate AtBoundary(log: seq<Happening>, from: nat, s: S)
      reads this`masterTicks
    {
      masterTicks == End(log, from, s) ||
      (End(log, from, s) < masterTicks && Waited(machine, phases, s, log, masterTicks))
    }

    /** One instruction, and the RCP over the span it consumed. */
    method RunInstruction(ghost log: seq<Happening>, ghost from: nat, ghost s: S) returns (ghost more: seq<Happening>)
      requires from <= masterTicks <= LAST_TARGET && Paced(log, from, s, masterTicks)
      requires AtBoundary(log, from, s) && !machine.halted(state)
      modifies this`masterTicks, this`state
      ensures masterTicks == old(masterTicks) + SpanOf(machine, phases, old(state), old(masterTicks))
      ensures old(masterTicks) < masterTicks <= U64_MAX - EDGE_PERIOD
      ensures Paced(more, from, s, masterTicks) && Units(more) == Units(log) + 1
      ensures masterTicks == End(more, from, s)
      ensures LastCpu(more) == |log| < |more| && more[|log|] == Issued(old(masterTicks))
      ensures Stepped(log + [Issued(old(masterTicks))], more, old(masterTicks))
    {
      hide IsEdge, RcpEdges, NextEdgeAfter, Perform, RcpTicks, Units, CpuEnd, LastCpu, Spaced, Waited;
      var countNow := CountTicks(phases, masterTicks);
      ghost var was := state;
      var (after, cost) := machine.instruction(state, countNow);
      state := after;
      more := Note(Issued(masterTicks), log, from, s, was);
      ghost var issued := more;
      var end := masterTicks + CPU_DIVIDER * Max(cost, 1);
      var first := NextEdgeAfter(masterTicks, phases.rcp, RCP_DIVIDER);
      var _, all := CatchUp(first, end, more, from, s);
      more := all;
      assert more[|log|] == more[..|issued|][|log|];
    }

    /** Nothing the CPU did started at the target or past it, and no batch ended past it. */
    ghost predicate Before(log: seq<Happening>, target: nat) {
      forall i :: 0 <= i < |log| ==>
        (log[i].Issued? ==> log[i].tick < target) && (log[i].PairsRetired? ==> log[i].tick <= target)
    }

    lemma BeforeExtends(log: seq<Happening>, h: Happening, more: seq<Happening>, after: nat, target: nat)
      requires Before(log, target) && Stepped(log + [h], more, after)
      requires (h.Issued? ==> h.tick < target) && (h.PairsRetired? ==> h.tick <= target)
      ensures Before(more, target)
    {
      var head := log + [h];
      forall i | 0 <= i < |more|
        ensures (more[i].Issued? ==> more[i].tick < target) && (more[i].PairsRetired? ==> more[i].tick <= target)
      {
        if i < |head| {
          assert more[i] == more[..|head|][i] == head[i];
        }
      }
    }

    /** `run_until_exec`: the CPU sets the pace and the RCP runs over the span each instruction
        consumed. The machine ends where the log of the run takes it: instructions issued back to
        back with `Count` as their tick gives it, idle pairs after the parked ones, and every RCP
        edge up to where it lands stepped exactly once and in order. It lands on the target, or
        past it by less than the span of the last instruction issued, and the report counts the
        instructions. */
    method RunUntilExec(target: u64) returns (report: FastRunReport, ghost log: seq<Happening>)
      requires target <= LAST_TARGET && masterTicks <= LAST_TARGET
      modifies this`masterTicks, this`state
      ensures Paced(log, old(masterTicks), old(state), masterTicks)
      ensures report == FastRunReport(Units(log), {})
      ensures Before(log, target) && masterTicks >= Max(old(masterTicks), target)
      ensures AtBoundary(log, old(masterTicks), old(state)) || (masterTicks == target && machine.halted(state))
      ensures masterTicks > Max(old(masterTicks), target) ==>
        var i := LastCpu(log);
        0 <= i && log[i].Issued? &&
        masterTicks == log[i].tick
          + SpanOf(machine, phases, Perform(machine, phases, old(state), log[..i]), log[i].tick)
    {
      hide IsEdge, RcpEdges, NextEdgeAfter, Perform, RcpTicks, Units, CpuEnd, LastCpu, Spaced, Waited, SpanOf;
      ghost var from, s := masterTicks, state;
      var units := 0;
      log := [];
      NothingYet(from, s);
      while masterTicks < target
        invariant from <= masterTicks && Paced(log, from, s, masterTicks) && units == Units(log)
        invariant AtBoundary(log, from, s) && Before(log, target)
        invariant masterTicks > Max(from, target) ==>
          masterTicks == End(log, from, s) && 0 <= LastCpu(log) && log[LastCpu(log)].Issued?
        decreases target - masterTicks
      {
        if machine.halted(state) {
          var next := NextEdgeAfter(masterTicks, phases.rcp, RCP_DIVIDER);
          if next > target {
            RcpEdgeReached(from, masterTicks, next);
            break;
          }
          log := WaitForRcp(next, log, from, s, target);
          continue;
        }
        ghost var before := log;
        var tick := masterTicks;
        log := RunInstruction(log, from, s);
        BeforeExtends(before, Issued(tick), log, tick, target);
        units := units + 1;
        if machine.parked(state) {
          ghost var issued, start := log, masterTicks;
          var done, more := RunIdleBatch(target, log, from, s, CountTicks(phases, tick));
          units, log := units + done, more;
          if done > 0 {
            BatchBefore(issued, log, start, target);
          }
        }
      }
      CpuEndIsLast(machine, phases, s, from, log);
      if masterTicks < target {
        masterTicks := target;
      }
      report := FastRunReport(units, {});
    }

    /** A halted CPU waits for the RCP's next step. */
    method WaitForRcp(next: u64, ghost log: seq<Happening>, ghost from: nat, ghost s: S, ghost target: nat)
        returns (ghost more: seq<Happening>)
      requires from <= masterTicks < next == NextEdgeAfter(masterTicks, phases.rcp, RCP_DIVIDER)
      requires Paced(log, from, s, masterTicks) && AtBoundary(log, from, s) && machine.halted(state)
      requires Before(log, target)
      modifies this`masterTicks, this`state
      ensures masterTicks == next && Paced(more, from, s, next) && Units(more) == Units(log)
      ensures AtBoundary(more, from, s) && Before(more, target)
    {
      hide IsEdge, RcpEdges, NextEdgeAfter, Perform, RcpTicks, Units, CpuEnd, LastCpu, Spaced;
      ghost var now := masterTicks;
      masterTicks := next;
      more := StepRcp(log, from, s, now);
      assert more[..|more| - 1] == log;
    }

    lemma BatchBefore(log: seq<Happening>, more: seq<Happening>, start: nat, target: nat)
      requires Before(log, target) && more != [] && Stepped(log, more[..|more| - 1], start)
      requires more[|more| - 1].PairsRetired? && more[|more| - 1].tick <= target
      ensures Before(more, target)
    {
      var body := more[..|more| - 1];
      forall i | 0 <= i < |body|
        ensures (body[i].Issued? ==> body[i].tick < target) && (body[i].PairsRetired? ==> body[i].tick <= target)
      {
        if i < |log| {
          assert body[i] == body[..|log|][i];
        }
      }
      assert forall i :: 0 <= i < |body| ==> more[i] == body[i];
    }

    lemma NothingYet(tick: nat, s: S)
      ensures RcpEdges(phases, tick, tick) == RcpTicks([]) == [] && Units([]) == 0
      ensures Perform(machine, phases, s, []) == s && End([], tick, s) == tick
      ensures Spaced(machine, phases, s, tick, [])
    {
    }
  }
}
