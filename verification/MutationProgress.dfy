/** How far one operation can move the coordinator, in one relation between the state before
    and the state after, and what follows over any number of such moves. */
module MutationProgress {
  import opened Options
  import opened MutationState
  import opened MutationInvariant

  /** What an operation did: counted a commit, invalidated the permits begun so far, or began one. */
  datatype Mark = Mark(commits: bool, disturbs: bool, begins: bool)

  const QUIET := Mark(false, false, false)

  function One(b: bool): nat {
    if b then 1 else 0
  }

  ghost predicate SameGrant(a: LeaseState, b: LeaseState) {
    a.token == b.token && a.ownerId == b.ownerId && a.acquisitionNonce == b.acquisitionNonce && a.session == b.session
  }

  ghost predicate CountersAdvance(s: State, s': State, m: Mark) {
    && s'.mutationSeq == s.mutationSeq + One(m.commits)
    && s'.emergencyEpoch == s.emergencyEpoch + One(m.disturbs)
    && s'.nextPermitId == s.nextPermitId + One(m.begins)
    && s.lastObservedAt <= s'.lastObservedAt
    && (s.counterExhausted ==> s'.counterExhausted)
    && (!m.disturbs ==> s'.session == s.session)
  }

  /** A taken slot stays as it is until it is freed, and a freed slot gets a new number. */
  ghost predicate SlotAdvances(s: State, s': State, m: Mark) {
    s'.inFlight.active ==>
      if m.begins then !s.inFlight.active && s'.inFlight.permitId == s'.nextPermitId
      else s'.inFlight == s.inFlight && !m.commits
  }

  /** A lease at the last revision that can still end: by its deadline, or with the permit that pins it. */
  ghost predicate MayLosePin(s: State) {
    s.leaseRevision == MAX_U64 && s.lease.active && (!s.counterExhausted || s.inFlight.active)
  }

  ghost predicate SameLease(s: State, s': State) {
    s'.lease == s.lease && s'.tombstone == s.tombstone
  }

  ghost predicate RevisionAdvances(s: State, s': State) {
    && s.leaseRevision <= s'.leaseRevision
    && (s'.leaseRevision == s.leaseRevision && !MayLosePin(s) ==> SameLease(s, s') && !MayLosePin(s'))
  }

  ghost predicate GrantAdvances(s: State, s': State) {
    && s.nextLeaseIncarnation <= s'.nextLeaseIncarnation
    && (s'.lease.active && s'.lease.incarnation <= s.nextLeaseIncarnation ==>
          s.lease.active && s'.lease.incarnation == s.lease.incarnation && SameGrant(s.lease, s'.lease))
  }

  ghost predicate Advances(s: State, s': State, m: Mark) {
    CountersAdvance(s, s', m) && SlotAdvances(s, s', m) && RevisionAdvances(s, s') && GrantAdvances(s, s')
  }

  lemma PrepareAdvances(s: State, now: Tick)
    requires CoreInv(s)
    ensures Advances(s, Prepare(s, now).0, QUIET)
    ensures Prepare(s, now).0.inFlight == s.inFlight
    ensures Prepare(s, now).1 == NoError ==> !Prepare(s, now).0.counterExhausted
  {}

  lemma SnapshotAdvances(s: State, clock: ClockReading)
    requires CoreInv(s)
    ensures Advances(s, SnapshotEffect(s, clock).0, QUIET)
  {}

  lemma AcquireAdvances(s: State, clock: ClockReading, req: AcquireRequest)
    requires CoreInv(s)
    ensures Advances(s, Acquire(s, clock, req).0, QUIET)
  {
    hide Prepare, GrantAcquire, Advances, CoreInv;
    StandsStill(s);
    if clock.ClockRead? {
      PrepareAdvances(s, clock.now);
      PrepareKeepsInv(s, clock.now);
      var s1 := Prepare(s, clock.now).0;
      if AcquireRefusal(req, clock) == NoError && !s1.lease.active {
        GrantAcquireAdvances(s1, req, clock.now + req.ttl);
        QuietMovesChain(s, s1, GrantAcquire(s1, req, clock.now + req.ttl).0);
      }
    }
  }

  lemma GrantAcquireAdvances(s: State, req: AcquireRequest, deadline: Tick)
    requires CoreInv(s) && !s.lease.active
    ensures Advances(s, GrantAcquire(s, req, deadline).0, QUIET)
  {}

  lemma QuietMovesChain(s: State, s1: State, s2: State)
    requires Advances(s, s1, QUIET) && Advances(s1, s2, QUIET)
    ensures Advances(s, s2, QUIET)
  {}

  lemma RenewAdvances(s: State, clock: ClockReading, req: RenewRequest)
    requires CoreInv(s)
    ensures Advances(s, Renew(s, clock, req).0, QUIET)
  {
    hide Prepare;
    if clock.ClockRead? {
      PrepareAdvances(s, clock.now);
    }
  }

  lemma ReleaseAdvances(s: State, clock: ClockReading, req: ReleaseRequest)
    requires CoreInv(s)
    ensures Advances(s, Release(s, clock, req).0, QUIET)
  {
    hide Prepare;
    if clock.ClockRead? {
      PrepareAdvances(s, clock.now);
    }
  }

  lemma BeginAdvances(s: State, clock: ClockReading, req: BeginRequest)
    requires CoreInv(s)
    ensures Advances(s, Begin(s, clock, req).0, Mark(false, false, Begin(s, clock, req).1.error == NoError))
  {
    hide Prepare;
    if clock.ClockRead? {
      PrepareAdvances(s, clock.now);
    }
  }

  lemma EmergencyAdvances(s: State, clock: ClockReading)
    requires CoreInv(s)
    ensures Advances(s, EmergencyInvalidate(s, clock).0,
                     Mark(false, EmergencyInvalidate(s, clock).1.error == NoError, false))
  {
    hide Prepare;
    if clock.ClockRead? {
      PrepareAdvances(s, clock.now);
    }
  }

  lemma InstallSessionAdvances(s: State, session: SessionIdentity)
    requires CoreInv(s) && s.emergencyEpoch < MAX_U64 && !s.counterExhausted
    ensures Advances(s, InstallSession(s, session).0, Mark(false, true, false))
  {}

  lemma ReplaceAdvances(s: State, clock: ClockReading, session: SessionIdentity)
    requires CoreInv(s)
    ensures Advances(s, ReplaceSession(s, clock, session).0,
                     Mark(false, ReplaceSession(s, clock, session).0.session != s.session, false))
  {
    hide Prepare;
    if clock.ClockRead? {
      PrepareAdvances(s, clock.now);
      PrepareKeepsInv(s, clock.now);
      var s1 := Prepare(s, clock.now).0;
      if s1.emergencyEpoch < MAX_U64 && !s1.counterExhausted {
        InstallSessionAdvances(s1, session);
      }
    }
  }

  lemma ClosePermitAdvances(s: State, permitId: U64, now: Tick)
    requires CoreInv(s)
    ensures Advances(s, ClosePermit(s, permitId, now), QUIET)
    ensures s.inFlight.active && s.inFlight.permitId == permitId ==> !ClosePermit(s, permitId, now).inFlight.active
  {}

  lemma CommitInFlightAdvances(s: State, handle: Handle, now: Tick, observed: SessionIdentity)
    requires CoreInv(s) && s.inFlight.active && s.inFlight.permitId == handle.permitId
    ensures Advances(s, CommitInFlight(s, handle, now, observed).0,
                     Mark(CommitInFlight(s, handle, now, observed).2.error == NoError, false, false))
  {
    hide ClosePermit, CommitRefusal, SnapshotOf;
    if s.mutationSeq < MAX_U64 {
      CountMovesFirst(s, handle.permitId, now);
    }
    ClosePermitAdvances(s, handle.permitId, now);
    ClosePermitAdvances(s.(counterExhausted := true), handle.permitId, now);
  }

  lemma StandsStill(s: State)
    ensures Advances(s, s, QUIET)
  {}

  /** Reading the clock first takes nothing away. */
  lemma ClockAdvances(s: State, now: Tick, s': State, m: Mark)
    requires CoreInv(s) && s.lastObservedAt <= now
    ensures var s1 := s.(lastObservedAt := now);
            CoreInv(s1) && Advances(s, s1, QUIET) && (Advances(s1, s', m) ==> Advances(s, s', m))
  {}

  lemma CommitAdvances(s: State, handle: Handle, clock: ClockReading, observed: SessionIdentity)
    requires CoreInv(s)
    ensures Advances(s, Commit(s, handle, clock, observed).0,
                     Mark(Commit(s, handle, clock, observed).2.error == NoError, false, false))
  {
    hide CommitInFlight, ClosePermit, Advances, CoreInv;
    StandsStill(s);
    ClosePermitAdvances(s, handle.permitId, s.lastObservedAt);
    if clock.ClockRead? && clock.now >= s.lastObservedAt {
      var s1 := s.(lastObservedAt := clock.now);
      ClockAdvances(s, clock.now, s1, QUIET);
      if s1.inFlight.active && s1.inFlight.permitId == handle.permitId {
        CommitInFlightAdvances(s1, handle, clock.now, observed);
        ClockAdvances(s, clock.now, CommitInFlight(s1, handle, clock.now, observed).0,
                      Mark(CommitInFlight(s1, handle, clock.now, observed).2.error == NoError, false, false));
      }
    }
  }

  lemma AbandonAdvances(s: State, handle: Handle, clock: ClockReading)
    requires CoreInv(s)
    ensures Advances(s, Abandon(s, handle, clock).0, QUIET)
  {
    var s1 := if clock.ClockFailed? || clock.now < s.lastObservedAt then s
              else s.(lastObservedAt := clock.now);
    ClosePermitAdvances(s1, handle.permitId, s1.lastObservedAt);
  }

  // Any number of moves

  ghost predicate Progression(cores: seq<State>, marks: seq<Mark>) {
    && |cores| == |marks| + 1
    && forall i | 0 <= i < |marks| :: Advances(cores[i], cores[i + 1], marks[i])
  }

  lemma {:induction false} CountersGrow(cores: seq<State>, marks: seq<Mark>, i: nat, j: nat)
    requires Progression(cores, marks) && i <= j < |cores|
    ensures cores[i].nextPermitId <= cores[j].nextPermitId
    ensures cores[i].emergencyEpoch <= cores[j].emergencyEpoch
    ensures cores[i].counterExhausted ==> cores[j].counterExhausted
  {
    if i < j {
      CountersGrow(cores, marks, i, j - 1);
      assert Advances(cores[j - 1], cores[j], marks[j - 1]);
    }
  }

  /** Permit numbers are never reused: a slot that holds an old number at `j` held it since. */
  lemma {:induction false} SlotWasHeld(cores: seq<State>, marks: seq<Mark>, i: nat, j: nat)
    requires Progression(cores, marks) && i <= j < |cores|
    requires cores[j].inFlight.active && cores[j].inFlight.permitId <= cores[i].nextPermitId
    ensures cores[i].inFlight == cores[j].inFlight
    ensures forall k | i <= k < j :: !marks[k].commits
    decreases j - i
  {
    if i < j {
      CountersGrow(cores, marks, i, j - 1);
      assert Advances(cores[j - 1], cores[j], marks[j - 1]);
      SlotWasHeld(cores, marks, i, j - 1);
    }
  }

  /** Equal epochs at both ends leave no room for a disturbance, hence for another session. */
  lemma {:induction false} UndisturbedKeepsSession(cores: seq<State>, marks: seq<Mark>, i: nat, j: nat)
    requires Progression(cores, marks) && i <= j < |cores|
    requires cores[i].emergencyEpoch == cores[j].emergencyEpoch
    ensures forall k | i <= k < j :: !marks[k].disturbs
    ensures forall k | i <= k <= j :: cores[k].session == cores[i].session
  {
    if i < j {
      CountersGrow(cores, marks, i, j - 1);
      assert Advances(cores[j - 1], cores[j], marks[j - 1]);
      UndisturbedKeepsSession(cores, marks, i, j - 1);
    }
  }

  /** A permit that is still good at `j` and existed at `i` saw nothing happen in between. */
  lemma GoodPermitSawNothing(cores: seq<State>, marks: seq<Mark>, i: nat, j: nat)
    requires Progression(cores, marks) && i <= j < |cores|
    requires cores[j].inFlight.active && cores[j].inFlight.permitId <= cores[i].nextPermitId
    requires cores[i].inFlight.emergencyEpoch == cores[i].emergencyEpoch
    requires cores[j].inFlight.emergencyEpoch == cores[j].emergencyEpoch
    ensures cores[i].inFlight == cores[j].inFlight
    ensures forall k | i <= k < j :: !marks[k].commits && !marks[k].disturbs
    ensures forall k | i <= k <= j :: cores[k].session == cores[i].session
  {
    SlotWasHeld(cores, marks, i, j);
    UndisturbedKeepsSession(cores, marks, i, j);
  }

  lemma {:induction false} RevisionPins(cores: seq<State>, marks: seq<Mark>, i: nat, j: nat)
    requires Progression(cores, marks) && i <= j < |cores|
    ensures cores[i].leaseRevision <= cores[j].leaseRevision
    ensures cores[i].leaseRevision == cores[j].leaseRevision && !MayLosePin(cores[i]) ==>
              SameLease(cores[i], cores[j]) && !MayLosePin(cores[j])
  {
    if i < j {
      RevisionPins(cores, marks, i, j - 1);
      assert Advances(cores[j - 1], cores[j], marks[j - 1]);
    }
  }

  lemma {:induction false} IncarnationPins(cores: seq<State>, marks: seq<Mark>, i: nat, j: nat)
    requires Progression(cores, marks) && i <= j < |cores|
    ensures cores[i].nextLeaseIncarnation <= cores[j].nextLeaseIncarnation
    ensures cores[j].lease.active && cores[j].lease.incarnation <= cores[i].nextLeaseIncarnation ==>
              && cores[i].lease.active
              && cores[i].lease.incarnation == cores[j].lease.incarnation
              && SameGrant(cores[i].lease, cores[j].lease)
  {
    if i < j {
      IncarnationPins(cores, marks, i, j - 1);
      assert Advances(cores[j - 1], cores[j], marks[j - 1]);
    }
  }
}
