/** One coordinator with all the permit handles that exist on it, and what holds over every run
    of calls: every interleaving of leases, permits, moves, emergencies, session replacements
    and clock readings. */
module MutationProtocol {
  import opened Options
  import opened MutationState
  import opened MutationInvariant
  import opened MutationProgress

  /** Handles are named by numbers; a name stands for one permit object. */
  datatype System = System(core: State, handles: map<nat, Handle>)

  datatype Call =
    | SnapshotCall(clock: ClockReading)
    | AcquireCall(clock: ClockReading, acquire: AcquireRequest)
    | RenewCall(clock: ClockReading, renew: RenewRequest)
    | ReleaseCall(clock: ClockReading, release: ReleaseRequest)
    | BeginCall(clock: ClockReading, begin: BeginRequest, into: nat)
    | EmergencyCall(clock: ClockReading)
    | ReplaceCall(clock: ClockReading, session: SessionIdentity)
    | CommitCall(clock: ClockReading, handle: nat, observed: SessionIdentity)
    | AbandonCall(clock: ClockReading, handle: nat)
    | DestroyCall(clock: ClockReading, handle: nat)
    | MoveConstructCall(from: nat, to: nat)
    | MoveAssignCall(clock: ClockReading, from: nat, to: nat)

  /** Objects are used only while they exist, and a new object has a new name. */
  predicate Enabled(sys: System, call: Call) {
    match call
    case BeginCall(_, _, into) => into !in sys.handles
    case CommitCall(_, h, _) => h in sys.handles
    case AbandonCall(_, h) => h in sys.handles
    case DestroyCall(_, h) => h in sys.handles
    case MoveConstructCall(from, to) => from in sys.handles && to !in sys.handles
    case MoveAssignCall(_, from, to) => from in sys.handles && to in sys.handles
    case _ => true
  }

  function Step(sys: System, call: Call): System
    requires Enabled(sys, call)
  {
    match call
    case SnapshotCall(clock) => sys.(core := SnapshotEffect(sys.core, clock).0)
    case AcquireCall(clock, req) => sys.(core := Acquire(sys.core, clock, req).0)
    case RenewCall(clock, req) => sys.(core := Renew(sys.core, clock, req).0)
    case ReleaseCall(clock, req) => sys.(core := Release(sys.core, clock, req).0)
    case BeginCall(clock, req, into) =>
      var (core, reply) := Begin(sys.core, clock, req);
      System(core, sys.handles[into := reply.permit])
    case EmergencyCall(clock) => sys.(core := EmergencyInvalidate(sys.core, clock).0)
    case ReplaceCall(clock, session) => sys.(core := ReplaceSession(sys.core, clock, session).0)
    case CommitCall(clock, h, observed) =>
      var (core, handle, _) := Commit(sys.core, sys.handles[h], clock, observed);
      System(core, sys.handles[h := handle])
    case AbandonCall(clock, h) =>
      var (core, handle) := Abandon(sys.core, sys.handles[h], clock);
      System(core, sys.handles[h := handle])
    case DestroyCall(clock, h) =>
      System(Abandon(sys.core, sys.handles[h], clock).0, sys.handles - {h})
    case MoveConstructCall(from, to) =>
      sys.(handles := sys.handles[to := sys.handles[from]][from := EMPTY_HANDLE])
    case MoveAssignCall(clock, from, to) =>
      if from == to then sys
      else System(Abandon(sys.core, sys.handles[to], clock).0,
                  sys.handles[to := sys.handles[from]][from := EMPTY_HANDLE])
  }

  ghost predicate IsRun(states: seq<System>, calls: seq<Call>) {
    && |states| == |calls| + 1
    && forall i | 0 <= i < |calls| :: Enabled(states[i], calls[i]) && states[i + 1] == Step(states[i], calls[i])
  }

  /** A run of a coordinator from its construction. */
  ghost predicate IsHistory(states: seq<System>, calls: seq<Call>) {
    && IsRun(states, calls)
    && states[0].core.session.Valid()
    && states[0] == System(InitialState(states[0].core.session), map[])
  }

  // Linearity of handles

  predicate IsOpen(sys: System, h: nat) {
    h in sys.handles && sys.handles[h].localState == Open
  }

  /** The slot is taken exactly while some handle is open; that handle is the only one, is usable,
      and holds the number of the slot. */
  ghost predicate Linear(sys: System) {
    && (forall h | IsOpen(sys, h) ::
          sys.handles[h].Active() && sys.core.inFlight.active && sys.handles[h].permitId == sys.core.inFlight.permitId)
    && (forall g, h | IsOpen(sys, g) && IsOpen(sys, h) :: g == h)
    && (sys.core.inFlight.active ==> exists h :: IsOpen(sys, h))
  }

  ghost predicate Inv(sys: System) {
    CoreInv(sys.core) && Linear(sys)
  }

  lemma CoreStepKeepsInv(sys: System, call: Call)
    requires Inv(sys) && Enabled(sys, call)
    ensures CoreInv(Step(sys, call).core)
  {
    var s := sys.core;
    match call
    case SnapshotCall(clock) => SnapshotKeepsInv(s, clock);
    case AcquireCall(clock, req) => AcquireKeepsInv(s, clock, req);
    case RenewCall(clock, req) => RenewKeepsInv(s, clock, req);
    case ReleaseCall(clock, req) => ReleaseKeepsInv(s, clock, req);
    case BeginCall(clock, req, _) => BeginKeepsInv(s, clock, req);
    case EmergencyCall(clock) => EmergencyKeepsInv(s, clock);
    case ReplaceCall(clock, session) => ReplaceKeepsInv(s, clock, session);
    case CommitCall(clock, h, observed) => CommitKeepsInv(s, sys.handles[h], clock, observed);
    case AbandonCall(clock, h) => AbandonKeepsInv(s, sys.handles[h], clock);
    case DestroyCall(clock, h) => AbandonKeepsInv(s, sys.handles[h], clock);
    case MoveConstructCall(_, _) =>
    case MoveAssignCall(clock, _, to) => AbandonKeepsInv(s, sys.handles[to], clock);
  }

  /** Lease, snapshot, emergency and session calls leave the slot alone. */
  lemma OtherCallsKeepSlot(sys: System, call: Call)
    requires Enabled(sys, call)
    requires call.SnapshotCall? || call.AcquireCall? || call.RenewCall? || call.ReleaseCall?
             || call.EmergencyCall? || call.ReplaceCall?
    ensures Step(sys, call).core.inFlight == sys.core.inFlight && Step(sys, call).handles == sys.handles
  {
    hide Prepare, Acquire, Renew, Release, CoreInv;
    var s := sys.core;
    if call.clock.ClockRead? {
      PrepareKeepsSlot(s, call.clock.now);
    }
    match call
    case AcquireCall(clock, req) => AcquireKeepsSlot(s, clock, req);
    case RenewCall(clock, req) => RenewKeepsSlot(s, clock, req);
    case ReleaseCall(clock, req) => ReleaseKeepsSlot(s, clock, req);
    case _ =>
  }

  lemma AcquireKeepsSlot(s: State, clock: ClockReading, req: AcquireRequest)
    ensures Acquire(s, clock, req).0.inFlight == s.inFlight
  {
    hide Prepare;
    if clock.ClockRead? {
      PrepareKeepsSlot(s, clock.now);
    }
  }

  lemma RenewKeepsSlot(s: State, clock: ClockReading, req: RenewRequest)
    ensures Renew(s, clock, req).0.inFlight == s.inFlight
  {
    hide Prepare;
    if clock.ClockRead? {
      PrepareKeepsSlot(s, clock.now);
    }
  }

  lemma ReleaseKeepsSlot(s: State, clock: ClockReading, req: ReleaseRequest)
    ensures Release(s, clock, req).0.inFlight == s.inFlight
  {
    hide Prepare;
    if clock.ClockRead? {
      PrepareKeepsSlot(s, clock.now);
    }
  }

  lemma PrepareKeepsSlot(s: State, now: Tick)
    ensures Prepare(s, now).0.inFlight == s.inFlight
  {}

  lemma CommitFreesSlot(s: State, handle: Handle, clock: ClockReading, observed: SessionIdentity)
    requires handle.Active() && s.inFlight.active && s.inFlight.permitId == handle.permitId
    ensures !Commit(s, handle, clock, observed).0.inFlight.active
    ensures Commit(s, handle, clock, observed).1.localState in {Committed, Closed}
  {}

  lemma AbandonFreesSlot(s: State, handle: Handle, clock: ClockReading)
    requires handle.Active() && s.inFlight.active && s.inFlight.permitId == handle.permitId
    ensures !Abandon(s, handle, clock).0.inFlight.active
    ensures Abandon(s, handle, clock).1.localState == Closed
  {}

  /** The slot survived or was freed together with the only open handle, and no handle opened. */
  lemma SlotWithHandlesKeepsLinear(sys: System, sys': System)
    requires Linear(sys)
    requires forall g :: IsOpen(sys', g) ==> IsOpen(sys, g) && sys'.handles[g] == sys.handles[g]
    requires if sys'.core.inFlight.active
             then sys'.core.inFlight == sys.core.inFlight && forall g :: IsOpen(sys, g) ==> IsOpen(sys', g)
             else forall g :: !IsOpen(sys', g)
    ensures Linear(sys')
  {
    if sys'.core.inFlight.active {
      var g :| IsOpen(sys, g);
      assert IsOpen(sys', g);
    }
  }

  lemma BeginKeepsLinear(sys: System, call: Call)
    requires Inv(sys) && Enabled(sys, call) && call.BeginCall?
    ensures Linear(Step(sys, call))
  {
    hide Begin, CoreInv;
    var sys' := Step(sys, call);
    BeginTakesSlot(sys.core, call.clock, call.begin);
    if BeginsPermit(sys, call) {
      assert IsOpen(sys', call.into);
      assert forall g :: IsOpen(sys', g) ==> g == call.into;
    } else {
      SlotWithHandlesKeepsLinear(sys, sys');
    }
  }

  lemma BeginTakesSlot(s: State, clock: ClockReading, req: BeginRequest)
    ensures var (s', reply) := Begin(s, clock, req);
            if reply.error == NoError
            then !s.inFlight.active && s'.inFlight.active && s'.inFlight.permitId > 0
                 && reply.permit == Handle(true, s'.inFlight.permitId, Open)
            else s'.inFlight == s.inFlight && reply.permit == EMPTY_HANDLE
  {
    hide Prepare;
    if clock.ClockRead? {
      PrepareKeepsSlot(s, clock.now);
    }
  }

  lemma CommitKeepsLinear(sys: System, call: Call)
    requires Inv(sys) && Enabled(sys, call) && call.CommitCall?
    ensures Linear(Step(sys, call))
  {
    if IsOpen(sys, call.handle) {
      CommitFreesSlot(sys.core, sys.handles[call.handle], call.clock, call.observed);
    }
    SlotWithHandlesKeepsLinear(sys, Step(sys, call));
  }

  /** Abandoning a handle and then dropping or blanking its object. */
  lemma AbandonKeepsLinear(sys: System, h: nat, clock: ClockReading, sys': System)
    requires Inv(sys) && h in sys.handles
    requires sys'.core == Abandon(sys.core, sys.handles[h], clock).0
    requires forall g :: IsOpen(sys', g) ==> g in sys.handles && sys'.handles[g] == sys.handles[g]
    requires forall g | g in sys.handles && g != h :: g in sys'.handles && sys'.handles[g] == sys.handles[g]
    requires IsOpen(sys, h) ==> !IsOpen(sys', h)
    ensures Linear(sys')
  {
    if IsOpen(sys, h) {
      AbandonFreesSlot(sys.core, sys.handles[h], clock);
    } else {
      assert forall g :: IsOpen(sys, g) ==> g != h && IsOpen(sys', g);
    }
    SlotWithHandlesKeepsLinear(sys, sys');
  }

  /** Moving the content of one object into another that is not open. */
  lemma MoveKeepsLinear(sys: System, from: nat, to: nat)
    requires Linear(sys) && from in sys.handles && from != to && !IsOpen(sys, to)
    ensures Linear(sys.(handles := sys.handles[to := sys.handles[from]][from := EMPTY_HANDLE]))
  {
    var sys' := sys.(handles := sys.handles[to := sys.handles[from]][from := EMPTY_HANDLE]);
    assert forall g :: IsOpen(sys', g) ==> if g == to then IsOpen(sys, from) else IsOpen(sys, g) && g != from;
    if sys.core.inFlight.active {
      var g :| IsOpen(sys, g);
      assert IsOpen(sys', if g == from then to else g);
    }
  }

  lemma AssignKeepsLinear(sys: System, call: Call)
    requires Inv(sys) && Enabled(sys, call) && call.MoveAssignCall?
    ensures Linear(Step(sys, call))
  {
    var clock, from, to := call.clock, call.from, call.to;
    if from != to {
      var (core, handle) := Abandon(sys.core, sys.handles[to], clock);
      var mid := System(core, sys.handles[to := handle]);
      AbandonKeepsLinear(sys, to, clock, mid);
      MoveKeepsLinear(mid, from, to);
      assert Step(sys, call).handles == mid.handles[to := mid.handles[from]][from := EMPTY_HANDLE];
    }
  }

  lemma OthersKeepLinear(sys: System, call: Call)
    requires Inv(sys) && Enabled(sys, call)
    requires call.SnapshotCall? || call.AcquireCall? || call.RenewCall? || call.ReleaseCall?
             || call.EmergencyCall? || call.ReplaceCall?
    ensures Linear(Step(sys, call))
  {
    OtherCallsKeepSlot(sys, call);
    hide Step;
    SlotWithHandlesKeepsLinear(sys, Step(sys, call));
  }

  lemma StepKeepsLinear(sys: System, call: Call)
    requires Inv(sys) && Enabled(sys, call)
    ensures Linear(Step(sys, call))
  {
    match call
    case BeginCall(_, _, _) => BeginKeepsLinear(sys, call);
    case CommitCall(_, _, _) => CommitKeepsLinear(sys, call);
    case AbandonCall(clock, h) => AbandonKeepsLinear(sys, h, clock, Step(sys, call));
    case DestroyCall(clock, h) => AbandonKeepsLinear(sys, h, clock, Step(sys, call));
    case MoveConstructCall(from, to) => MoveKeepsLinear(sys, from, to);
    case MoveAssignCall(_, _, _) => AssignKeepsLinear(sys, call);
    case _ => OthersKeepLinear(sys, call);
  }

  /** Main result: every state of every history satisfies the invariant. */
  lemma HistoryKeepsInv(states: seq<System>, calls: seq<Call>, n: nat)
    requires IsHistory(states, calls) && n < |states|
    ensures Inv(states[n])
  {
    RunKeepsInv(states, calls, n);
  }

  lemma {:induction false} RunKeepsInv(states: seq<System>, calls: seq<Call>, n: nat)
    requires IsRun(states, calls) && n < |states| && Inv(states[0])
    ensures Inv(states[n])
  {
    if n > 0 {
      RunKeepsInv(states, calls, n - 1);
      hide Inv, Step, Enabled;
      StepKeepsInv(states[n - 1], calls[n - 1]);
    }
  }

  lemma StepKeepsInv(sys: System, call: Call)
    requires Inv(sys) && Enabled(sys, call)
    ensures Inv(Step(sys, call))
  {
    hide Step, CoreInv, Linear;
    CoreStepKeepsInv(sys, call);
    StepKeepsLinear(sys, call);
  }

  // What a call did, read off its reply

  predicate Commits(sys: System, call: Call)
    requires Enabled(sys, call)
  {
    call.CommitCall? && Commit(sys.core, sys.handles[call.handle], call.clock, call.observed).2.error == NoError
  }

  predicate BeginsPermit(sys: System, call: Call)
    requires Enabled(sys, call)
  {
    call.BeginCall? && Begin(sys.core, call.clock, call.begin).1.error == NoError
  }

  /** An emergency that was carried out, or a replacement that changed the session. */
  predicate Disturbs(sys: System, call: Call)
    requires Enabled(sys, call)
  {
    || (call.EmergencyCall? && EmergencyInvalidate(sys.core, call.clock).1.error == NoError)
    || (call.ReplaceCall? && ReplaceSession(sys.core, call.clock, call.session).0.session != sys.core.session)
  }

  function MarkOf(sys: System, call: Call): Mark
    requires Enabled(sys, call)
  {
    Mark(Commits(sys, call), Disturbs(sys, call), BeginsPermit(sys, call))
  }

  lemma PermitStepAdvances(sys: System, call: Call)
    requires Inv(sys) && Enabled(sys, call)
    requires call.CommitCall? || call.AbandonCall? || call.DestroyCall? || call.MoveConstructCall? || call.MoveAssignCall?
    ensures Advances(sys.core, Step(sys, call).core, MarkOf(sys, call))
  {
    assert Advances(sys.core, sys.core, Mark(false, false, false));
    hide Advances, CoreInv, Linear, Commit, Abandon, Begin, EmergencyInvalidate, ReplaceSession, Acquire, Renew, Release,
         SnapshotEffect;
    var s := sys.core;
    match call
    case CommitCall(clock, h, observed) => CommitAdvances(s, sys.handles[h], clock, observed);
    case AbandonCall(clock, h) => AbandonAdvances(s, sys.handles[h], clock);
    case DestroyCall(clock, h) => AbandonAdvances(s, sys.handles[h], clock);
    case MoveConstructCall(_, _) =>
    case MoveAssignCall(clock, _, to) => AbandonAdvances(s, sys.handles[to], clock);
  }

  lemma StepAdvances(sys: System, call: Call)
    requires Inv(sys) && Enabled(sys, call)
    ensures Advances(sys.core, Step(sys, call).core, MarkOf(sys, call))
  {
    assert QUIET == Mark(false, false, false);
    hide Advances, CoreInv, Linear, Commit, Abandon, Begin, EmergencyInvalidate, ReplaceSession, Acquire, Renew, Release,
         SnapshotEffect;
    var s := sys.core;
    match call
    case SnapshotCall(clock) => SnapshotAdvances(s, clock);
    case AcquireCall(clock, req) => AcquireAdvances(s, clock, req);
    case RenewCall(clock, req) => RenewAdvances(s, clock, req);
    case ReleaseCall(clock, req) => ReleaseAdvances(s, clock, req);
    case BeginCall(clock, req, _) => BeginAdvances(s, clock, req);
    case EmergencyCall(clock) => EmergencyAdvances(s, clock);
    case ReplaceCall(clock, session) => ReplaceAdvances(s, clock, session);
    case _ => PermitStepAdvances(sys, call);
  }

  // Histories seen from the coordinator alone

  ghost function Cores(states: seq<System>): seq<State> {
    seq(|states|, i requires 0 <= i < |states| => states[i].core)
  }

  ghost function Marks(states: seq<System>, calls: seq<Call>): seq<Mark>
    requires IsRun(states, calls)
  {
    seq(|calls|, i requires 0 <= i < |calls| => MarkOf(states[i], calls[i]))
  }

  lemma HistoryAdvances(states: seq<System>, calls: seq<Call>)
    requires IsHistory(states, calls)
    ensures Progression(Cores(states), Marks(states, calls))
  {
    HistoryKeepsInv(states, calls, 0);
    RunAdvances(states, calls);
  }

  lemma RunAdvances(states: seq<System>, calls: seq<Call>)
    requires IsRun(states, calls) && Inv(states[0])
    ensures Progression(Cores(states), Marks(states, calls))
  {
    forall i | 0 <= i < |calls|
      ensures Advances(states[i].core, states[i + 1].core, MarkOf(states[i], calls[i]))
    {
      RunKeepsInv(states, calls, i);
      StepAdvances(states[i], calls[i]);
    }
  }

  // The mutation sequence counts the commits

  ghost function CommitCount(states: seq<System>, calls: seq<Call>, n: nat): nat
    requires IsRun(states, calls) && n <= |calls|
  {
    if n == 0 then 0
    else CommitCount(states, calls, n - 1) + One(MarkOf(states[n - 1], calls[n - 1]).commits)
  }

  lemma {:induction false} MutationSeqCountsCommits(states: seq<System>, calls: seq<Call>, n: nat)
    requires IsHistory(states, calls) && n <= |calls|
    ensures states[n].core.mutationSeq == CommitCount(states, calls, n)
  {
    if n > 0 {
      MutationSeqCountsCommits(states, calls, n - 1);
      HistoryAdvances(states, calls);
      assert Advances(Cores(states)[n - 1], Cores(states)[n], Marks(states, calls)[n - 1]);
    }
  }

  /** Successful commits are numbered 1, 2, 3, ... without a gap. */
  lemma CommitsAreNumberedInOrder(states: seq<System>, calls: seq<Call>, n: nat)
    requires IsHistory(states, calls) && n < |calls| && Commits(states[n], calls[n])
    ensures Commit(states[n].core, states[n].handles[calls[n].handle], calls[n].clock, calls[n].observed)
            .2.committedMutationSeq == CommitCount(states, calls, n) + 1
  {
    MutationSeqCountsCommits(states, calls, n);
  }

  lemma BeginFillsSlot(sys: System, call: Call)
    requires Inv(sys) && Enabled(sys, call) && BeginsPermit(sys, call)
    ensures var s' := Step(sys, call).core;
            && s'.inFlight == InFlightState(true, s'.nextPermitId, s'.inFlight.leaseIncarnation, call.begin.session,
                                            s'.mutationSeq, s'.emergencyEpoch)
            && s'.mutationSeq == call.begin.expectedMutationSeq
            && s'.session == call.begin.session
  {}

  lemma CommitNeedsSlot(sys: System, call: Call)
    requires Inv(sys) && Enabled(sys, call) && Commits(sys, call)
    ensures var s := sys.core;
            && s.inFlight.active && s.inFlight.permitId == sys.handles[call.handle].permitId
            && s.inFlight.emergencyEpoch == s.emergencyEpoch
            && s.inFlight.mutationSeq == s.mutationSeq
            && Step(sys, call).core.mutationSeq == s.mutationSeq + 1
  {
    assert IsOpen(sys, call.handle);
  }

  /** What a begin left behind and what its commit found, with nothing in between. */
  lemma PermitSawNothing(states: seq<System>, calls: seq<Call>, i: nat, j: nat)
    requires IsHistory(states, calls) && i < j < |calls|
    requires BeginsPermit(states[i], calls[i]) && Commits(states[j], calls[j])
    requires states[j].handles[calls[j].handle].permitId == states[i + 1].core.inFlight.permitId
    ensures var marks := Marks(states, calls); forall k | i < k < j :: !marks[k].commits && !marks[k].disturbs
    ensures var cores := Cores(states);
            && (forall k | i < k <= j :: cores[k].session == calls[i].begin.session)
            && cores[j + 1].mutationSeq == calls[i].begin.expectedMutationSeq + 1
  {
    HistoryAdvances(states, calls);
    HistoryKeepsInv(states, calls, i);
    HistoryKeepsInv(states, calls, i + 1);
    HistoryKeepsInv(states, calls, j);
    BeginFillsSlot(states[i], calls[i]);
    CommitNeedsSlot(states[j], calls[j]);
    var cores := Cores(states);
    assert cores[i + 1] == states[i + 1].core && cores[j] == states[j].core && cores[j + 1] == states[j + 1].core;
    GoodPermitSawNothing(cores, Marks(states, calls), i + 1, j);
  }

  /** Main result: when a permit begun by call `i` is committed by call `j`, no other commit, no
      emergency and no session change happened in between, not even one that was undone, and the
      commit gets the number after the one that its begin had asked for. */
  lemma CommitIsExclusive(states: seq<System>, calls: seq<Call>, i: nat, j: nat)
    requires IsHistory(states, calls) && i < j < |calls|
    requires BeginsPermit(states[i], calls[i]) && Commits(states[j], calls[j])
    requires states[j].handles[calls[j].handle].permitId == states[i + 1].core.inFlight.permitId
    ensures forall k | i < k < j :: !Commits(states[k], calls[k]) && !Disturbs(states[k], calls[k])
    ensures forall k | i < k <= j :: states[k].core.session == calls[i].begin.session
    ensures states[j + 1].core.mutationSeq == calls[i].begin.expectedMutationSeq + 1
  {
    PermitSawNothing(states, calls, i, j);
    var cores, marks := Cores(states), Marks(states, calls);
    forall k | i < k < j
      ensures !Commits(states[k], calls[k]) && !Disturbs(states[k], calls[k])
    {
      assert marks[k] == MarkOf(states[k], calls[k]);
    }
    forall k | i < k <= j
      ensures states[k].core.session == calls[i].begin.session
    {
      assert cores[k] == states[k].core;
    }
    assert cores[j + 1] == states[j + 1].core;
  }

  /** Main result: below the last revision, equal lease revisions mean equal lease records and equal tombstones,
      whatever the other counters do in between.  A caller reads the revision off any snapshot. */
  lemma RevisionPinsLease(states: seq<System>, calls: seq<Call>, i: nat, j: nat)
    requires IsHistory(states, calls) && i <= j < |states|
    requires states[i].core.leaseRevision == states[j].core.leaseRevision < MAX_U64
    ensures SameLease(states[i].core, states[j].core)
  {
    HistoryAdvances(states, calls);
    RevisionPins(Cores(states), Marks(states, calls), i, j);
  }

  /** Whatever is called from here on, the lease is as it is now while its revision is. */
  ghost predicate PinnedFrom(sys: System) {
    forall states: seq<System>, calls: seq<Call>, j: nat | IsRun(states, calls) && states[0] == sys && j < |states| ::
      states[j].core.leaseRevision == sys.core.leaseRevision ==> SameLease(sys.core, states[j].core)
  }

  /** Main result: a revision pins the lease for good exactly when it is not the last one, or there is no lease, or
      there is one that nothing can end: the coordinator is out of service and no permit is in flight. */
  lemma RevisionPinsExactlyWhen(sys: System)
    requires Inv(sys)
    ensures PinnedFrom(sys) <==>
              sys.core.leaseRevision < MAX_U64 || !sys.core.lease.active
              || (sys.core.counterExhausted && !sys.core.inFlight.active)
  {
    if MayLosePin(sys.core) {
      var call := LastRevisionDoesNotPin(sys);
      var states, calls := [sys, Step(sys, call)], [call];
      assert IsRun(states, calls) && states[0] == sys;
      assert states[1].core.leaseRevision == sys.core.leaseRevision && !SameLease(sys.core, states[1].core);
    } else {
      forall states: seq<System>, calls: seq<Call>, j: nat | IsRun(states, calls) && states[0] == sys && j < |states|
        ensures states[j].core.leaseRevision == sys.core.leaseRevision ==> SameLease(sys.core, states[j].core)
      {
        RunAdvances(states, calls);
        RevisionPins(Cores(states), Marks(states, calls), 0, j);
      }
    }
  }

  /** What ends a lease at the last revision, once its deadline has come: closing the permit if one is in flight, and
      looking at the clock if none is.  The coordinator refuses everything from then on. */
  lemma LastRevisionDoesNotPin(sys: System) returns (call: Call)
    requires Inv(sys) && MayLosePin(sys.core)
    ensures Enabled(sys, call)
    ensures var s' := Step(sys, call).core;
            s'.leaseRevision == sys.core.leaseRevision && !s'.lease.active && s'.counterExhausted
  {
    var s := sys.core;
    var clock := ClockRead(if s.lease.expiresAt < s.lastObservedAt then s.lastObservedAt else s.lease.expiresAt);
    if s.inFlight.active {
      var h :| IsOpen(sys, h);
      call := AbandonCall(clock, h);
    } else {
      call := SnapshotCall(clock);
    }
  }

  /** An incarnation number names one grant: same token, owner, nonce and session ever after. */
  lemma IncarnationNamesOneGrant(states: seq<System>, calls: seq<Call>, i: nat, j: nat)
    requires IsHistory(states, calls) && i <= j < |states|
    requires states[i].core.lease.active && states[j].core.lease.active
    requires states[i].core.lease.incarnation == states[j].core.lease.incarnation
    ensures SameGrant(states[i].core.lease, states[j].core.lease)
  {
    HistoryAdvances(states, calls);
    HistoryKeepsInv(states, calls, i);
    IncarnationPins(Cores(states), Marks(states, calls), i, j);
  }
}
