/** Exactly when each operation is granted, and what the end of a permit leaves behind.  The
    conditions are written without the order of the checks; the invariant makes most of the
    checks of the original redundant, and these lemmas say which ones decide. */
module MutationGuarantees {
  import opened Options
  import opened MutationState
  import opened MutationInvariant
  import opened MutationProtocol

  /** The caller proved to be the holder of the lease. */
  predicate HoldsLease(s: State, ownerId: string, acquisitionNonce: string, token: string) {
    s.lease.active && token == s.lease.token && ownerId == s.lease.ownerId && acquisitionNonce == s.lease.acquisitionNonce
  }

  /** The clock works and the coordinator is still in service after an expired lease was handled. */
  predicate Ready(s: State, clock: ClockReading) {
    clock.ClockRead? && Prepare(s, clock.now).1 == NoError
  }

  /** Preparing is refused only by a regressing clock or an exhausted counter; otherwise an overdue
      lease has become pending if a permit pins it and is gone if none does. */
  lemma PreparedState(s: State, now: Tick)
    requires CoreInv(s)
    ensures var (s1, error) := Prepare(s, now);
            && (error == NoError <==>
                  && !s.counterExhausted && s.lastObservedAt <= now
                  && !(s.lease.active && !AnyPending(s.lease) && s.lease.expiresAt <= now && s.leaseRevision == MAX_U64))
            && (error == NoError && s1.lease.active && !AnyPending(s1.lease) ==> now < s1.lease.expiresAt)
            && s1.inFlight == s.inFlight && s1.session == s.session
  {}

  /** Main result: a permit is given out exactly to a request that names the current session and
      all three current counters while the slot is vacant, and that either shows the unexpired
      lease or, when there is no lease, shows no credential at all. */
  lemma BeginGranted(s: State, clock: ClockReading, req: BeginRequest)
    requires CoreInv(s)
    ensures Begin(s, clock, req).1.error == NoError <==>
              && Ready(s, clock)
              && var s1 := Prepare(s, clock.now).0;
              && req.session == s1.session
              && req.expectedLeaseRevision == s1.leaseRevision
              && req.expectedMutationSeq == s1.mutationSeq
              && req.expectedEmergencyEpoch == s1.emergencyEpoch
              && !s1.inFlight.active && s1.nextPermitId < MAX_U64
              && (if s1.lease.active
                  then HoldsLease(s1, req.ownerId, req.acquisitionNonce, req.leaseToken) && clock.now < s1.lease.expiresAt
                  else !req.HasAnyCredentials())
  {
    if clock.ClockRead? {
      PrepareKeepsInv(s, clock.now);
      PreparedState(s, clock.now);
    }
  }

  predicate WellFormedAcquire(req: AcquireRequest, now: Tick) {
    && req.session.Valid() && ValidOwner(req.ownerId) && ValidSecret(req.acquisitionNonce)
    && ValidSecret(req.proposedLeaseToken) && req.proposedLeaseToken != req.acquisitionNonce
    && DeadlineFits(now, req.ttl)
  }

  /** A lease is granted exactly when there is none, no unleased mutation is in flight, the
      revision is current and the token is not that of the last lease; an acquire is answered
      from the active lease exactly for its owner and nonce while nothing is pending. */
  lemma AcquireGranted(s: State, clock: ClockReading, req: AcquireRequest)
    requires CoreInv(s)
    ensures var reply := Acquire(s, clock, req).1;
            reply.error == NoError <==>
              && Ready(s, clock) && WellFormedAcquire(req, clock.now)
              && var s1 := Prepare(s, clock.now).0;
              && req.session == s1.session && req.expectedLeaseRevision == s1.leaseRevision
              && (if s1.lease.active
                  then !AnyPending(s1.lease) && req.ownerId == s1.lease.ownerId
                       && req.acquisitionNonce == s1.lease.acquisitionNonce
                  else !s1.inFlight.active && req.proposedLeaseToken != s1.tombstone.token
                       && s1.nextLeaseIncarnation < MAX_U64 && s1.leaseRevision < MAX_U64)
    ensures var (s', reply) := Acquire(s, clock, req);
            reply.error == NoError ==>
              && s'.lease.active && !AnyPending(s'.lease) && clock.now < s'.lease.expiresAt
              && reply.leaseToken == s'.lease.token && reply.expiresAt == s'.lease.expiresAt
              && s'.lease.ownerId == req.ownerId && s'.lease.session == s'.session
              && (!reply.replayed ==> reply.leaseToken == req.proposedLeaseToken
                                      && reply.expiresAt == clock.now + req.ttl)
  {
    if clock.ClockRead? {
      PrepareKeepsInv(s, clock.now);
      PreparedState(s, clock.now);
    }
  }

  /** A lease is prolonged exactly for its holder while it is neither released nor invalidated.
      A lease that expired under a permit can be brought back this way, one that ended cannot. */
  lemma RenewGranted(s: State, clock: ClockReading, req: RenewRequest)
    requires CoreInv(s)
    ensures var reply := Renew(s, clock, req).1;
            reply.error == NoError <==>
              && Ready(s, clock) && DeadlineFits(clock.now, req.ttl)
              && var s1 := Prepare(s, clock.now).0;
              && HoldsLease(s1, req.ownerId, req.acquisitionNonce, req.leaseToken)
              && req.session == s1.session && req.expectedLeaseRevision == s1.leaseRevision
              && !s1.lease.releasePending && !s1.lease.sessionInvalidationPending
              && s1.leaseRevision < MAX_U64
    ensures var (s', reply) := Renew(s, clock, req);
            reply.error == NoError ==>
              s'.lease.active && !AnyPending(s'.lease) && s'.lease.expiresAt == clock.now + req.ttl > clock.now
  {
    if clock.ClockRead? {
      PrepareKeepsInv(s, clock.now);
    }
  }

  /** A lease is given back exactly by its holder.  It ends at once unless a permit pins it, and
      then the reply says that it is pending. */
  lemma ReleaseGranted(s: State, clock: ClockReading, req: ReleaseRequest)
    requires CoreInv(s)
    ensures var reply := Release(s, clock, req).1;
            reply.error == NoError <==>
              && Ready(s, clock)
              && var s1 := Prepare(s, clock.now).0;
              && HoldsLease(s1, req.ownerId, req.acquisitionNonce, req.leaseToken)
              && req.session == s1.session && req.expectedLeaseRevision == s1.leaseRevision
              && !s1.lease.sessionInvalidationPending
              && (s1.lease.releasePending || s1.leaseRevision < MAX_U64)
    ensures var (s', reply) := Release(s, clock, req);
            reply.error == NoError ==>
              && (reply.pending <==> s.inFlight.active)
              && (if reply.pending then s'.lease.active && s'.lease.releasePending && Pinned(s')
                  else !s'.lease.active && s'.tombstone == Tombstone(req.leaseToken, Released))
  {
    if clock.ClockRead? {
      PrepareKeepsInv(s, clock.now);
      PreparedState(s, clock.now);
    }
  }

  /** An ended lease is told apart from one that never was, and neither begins a mutation. */
  lemma EndedTokenIsRefused(s: State, clock: ClockReading, req: BeginRequest)
    requires CoreInv(s) && Ready(s, clock)
    requires req.session == s.session && ValidOwner(req.ownerId) && ValidSecret(req.acquisitionNonce) && ValidSecret(req.leaseToken)
    requires var s1 := Prepare(s, clock.now).0; !s1.lease.active || req.leaseToken != s1.lease.token
    ensures var s1 := Prepare(s, clock.now).0;
            Begin(s, clock, req).1.error ==
              if req.leaseToken != s1.tombstone.token then UnknownLeaseToken
              else if s1.tombstone.reason == Expired then ExpiredLeaseToken
              else StaleLeaseToken
  {
    PrepareKeepsInv(s, clock.now);
    PreparedState(s, clock.now);
  }

  // Commit

  /** Main result: a commit of an open handle succeeds exactly when the clock did not fail or go
      back, no counter has run out, the session observed now is the current one and that of the
      begin, and the epoch has not moved.  The checks of the slot, of the lease incarnation and of
      the mutation sequence never decide. */
  lemma CommitSucceeds(sys: System, h: nat, clock: ClockReading, observed: SessionIdentity)
    requires Inv(sys) && IsOpen(sys, h)
    ensures var (s, error) := (sys.core, Commit(sys.core, sys.handles[h], clock, observed).2.error);
            && (error == NoError <==>
                  && clock.ClockRead? && s.lastObservedAt <= clock.now
                  && !s.counterExhausted && s.mutationSeq < MAX_U64
                  && observed == s.session == s.inFlight.session
                  && s.emergencyEpoch == s.inFlight.emergencyEpoch)
            && error !in {StaleLeaseToken, StaleMutationSequence, PermitNotActive, PermitAlreadyCommitted}
  {}

  /** Which of the two refusals reports that the permit was invalidated meanwhile. */
  lemma InvalidatedCommit(sys: System, h: nat, clock: ClockReading, observed: SessionIdentity)
    requires Inv(sys) && IsOpen(sys, h)
    requires clock.ClockRead? && sys.core.lastObservedAt <= clock.now && !sys.core.counterExhausted
    requires sys.core.emergencyEpoch != sys.core.inFlight.emergencyEpoch
    ensures Commit(sys.core, sys.handles[h], clock, observed).2.error ==
              if observed == sys.core.session == sys.core.inFlight.session then EmergencyInvalidated else SessionChanged
  {}

  /** A session that was replaced and then restored does not revive a permit, but the refusal then
      says EmergencyInvalidated and not, as the header comment has it, SessionChanged. */
  lemma RestoredSessionReportsEmergency(a: SessionIdentity, b: SessionIdentity)
    requires a.Valid() && b.Valid() && a.bridgeInstanceId != b.bridgeInstanceId
    ensures var clock := ClockRead(0);
            var sys0 := System(InitialState(a), map[]);
            var sys1 := Step(sys0, BeginCall(clock, BeginRequest(a, "", "", "", 0, 0, 0), 0));
            var sys2 := Step(sys1, ReplaceCall(clock, b));
            var sys3 := Step(sys2, ReplaceCall(clock, a));
            && IsOpen(sys3, 0) && sys3.core.session == a
            && Commit(sys3.core, sys3.handles[0], clock, a).2.error == EmergencyInvalidated
  {
    var clock := ClockRead(0);
    var sys1 := Step(System(InitialState(a), map[]), BeginCall(clock, BeginRequest(a, "", "", "", 0, 0, 0), 0));
    assert sys1.core.inFlight == InFlightState(true, 1, 0, a, 0, 0) && !sys1.core.lease.active;
    var sys2 := Step(sys1, ReplaceCall(clock, b));
    assert sys2.core.session == b && sys2.core.emergencyEpoch == 1;
  }

  // Sessions and emergencies

  /** A session may follow another unless it is of the same bridge and not newer. */
  predicate MayFollow(session: SessionIdentity, current: SessionIdentity) {
    session.bridgeInstanceId == current.bridgeInstanceId ==> session.generation > current.generation
  }

  /** Main result: a session is replaced exactly by itself, which changes nothing, or by a valid one that may follow
      it.  Then the epoch has moved, so that no permit begun before can commit, and no lease of the old session can be
      used any more: it is gone and remembered as invalidated, or waits for the permit that pins it. */
  lemma SessionReplaced(s: State, clock: ClockReading, session: SessionIdentity)
    requires CoreInv(s)
    ensures var (s', reply) := ReplaceSession(s, clock, session);
            reply.error == NoError <==>
              && session.Valid() && Ready(s, clock)
              && var s1 := Prepare(s, clock.now).0;
              (session == s1.session
               || (MayFollow(session, s1.session) && s1.emergencyEpoch < MAX_U64
                   && (s1.lease.active ==> s1.leaseRevision < MAX_U64)))
    ensures var (s', reply) := ReplaceSession(s, clock, session);
            reply.error == NoError ==>
              && s'.session == session && s'.mutationSeq == s.mutationSeq && s'.inFlight == s.inFlight
              && (if session == s.session then s'.emergencyEpoch == s.emergencyEpoch
                  else s'.emergencyEpoch == s.emergencyEpoch + 1
                       && (s'.lease.active ==> Pinned(s') && s'.lease.sessionInvalidationPending)
                       && (Prepare(s, clock.now).0.lease.active && !s'.lease.active ==>
                             s'.tombstone == Tombstone(Prepare(s, clock.now).0.lease.token, SessionInvalidated)))
  {
    if clock.ClockRead? {
      PrepareKeepsInv(s, clock.now);
      PreparedState(s, clock.now);
      PrepareKeepsCounts(s, clock.now);
      hide Prepare;
    }
  }

  lemma PrepareKeepsCounts(s: State, now: Tick)
    ensures var s1 := Prepare(s, now).0;
            s1.session == s.session && s1.mutationSeq == s.mutationSeq && s1.emergencyEpoch == s.emergencyEpoch
            && s1.inFlight == s.inFlight
  {}

  /** Whatever was begun before a successful emergency cannot be committed after it, while the sequence of commits and
      the lease stay as they are. */
  lemma EmergencyStopsPermit(sys: System, h: nat, clock: ClockReading, later: ClockReading, observed: SessionIdentity)
    requires Inv(sys) && IsOpen(sys, h)
    requires EmergencyInvalidate(sys.core, clock).1.error == NoError
    ensures var (s1, s2) := (Prepare(sys.core, clock.now).0, EmergencyInvalidate(sys.core, clock).0);
            && s2.mutationSeq == sys.core.mutationSeq && s2.lease == s1.lease && s2.tombstone == s1.tombstone
            && s2.session == sys.core.session
            && Commit(s2, sys.handles[h], later, observed).2.error != NoError
  {
    var s := sys.core;
    PrepareKeepsCounts(s, clock.now);
    assert s.inFlight.active && s.inFlight.permitId == sys.handles[h].permitId && s.inFlight.emergencyEpoch <= s.emergencyEpoch;
    hide Prepare, ClosePermit;
  }

  // The end of a permit

  /** No lease is left, or the lease from before is left as it was with time to run. */
  ghost predicate LeaseSettled(s: State, s': State) {
    || (!s'.lease.active && s'.lease == NO_LEASE)
    || (s'.lease == s.lease && !AnyPending(s'.lease) && s'.lastObservedAt < s'.lease.expiresAt)
  }

  /** The lease that ended with the permit is remembered with the strongest reason. */
  ghost predicate EndIsRemembered(s: State, s': State) {
    if s.lease.active && !s'.lease.active
    then s'.tombstone == Tombstone(s.lease.token,
                                   if s.lease.sessionInvalidationPending then SessionInvalidated
                                   else if s.lease.releasePending then Released else Expired)
    else s'.tombstone == s.tombstone
  }

  lemma ClosePermitSettles(s: State, now: Tick)
    requires CoreInv(s) && s.inFlight.active && now == s.lastObservedAt
    ensures var s' := ClosePermit(s, s.inFlight.permitId, now);
            !s'.inFlight.active && LeaseSettled(s, s') && EndIsRemembered(s, s')
  {}

  /** Main result: whatever a commit of an open handle answers, it frees the slot, uses the handle
      up and settles a pending or overdue lease, a failed or regressed clock notwithstanding. */
  lemma CommitSettles(sys: System, h: nat, clock: ClockReading, observed: SessionIdentity)
    requires Inv(sys) && IsOpen(sys, h)
    ensures var (s', handle, reply) := Commit(sys.core, sys.handles[h], clock, observed);
            && !s'.inFlight.active
            && handle.localState == (if reply.error == NoError then Committed else Closed)
            && LeaseSettled(sys.core, s') && EndIsRemembered(sys.core, s')
            && (reply.error == NoError ==> reply.committedMutationSeq == s'.mutationSeq == sys.core.mutationSeq + 1)
  {
    hide ClosePermit, CommitInFlight;
    var s := sys.core;
    ClosePermitSettles(s, s.lastObservedAt);
    if clock.ClockRead? && s.lastObservedAt <= clock.now {
      var s1 := s.(lastObservedAt := clock.now);
      ClosePermitSettles(s1, clock.now);
      ClosePermitSettles(s1.(counterExhausted := true), clock.now);
      CommitInFlightCloses(s1, sys.handles[h], clock.now, observed);
    }
  }

  /** A commit that reaches the slot uses the handle up, and closes the slot on a state that differs in the counts
      only. */
  lemma CommitInFlightCloses(s: State, handle: Handle, now: Tick, observed: SessionIdentity)
    requires CoreInv(s) && s.inFlight.active && s.inFlight.permitId == handle.permitId
    ensures var (s', handle', reply) := CommitInFlight(s, handle, now, observed);
            var closed := ClosePermit(s, handle.permitId, now);
            && s'.(mutationSeq := closed.mutationSeq, counterExhausted := closed.counterExhausted) == closed
            && handle'.localState == (if reply.error == NoError then Committed else Closed)
            && (reply.error == NoError ==> reply.committedMutationSeq == s'.mutationSeq == s.mutationSeq + 1)
  {
    hide CommitRefusal, SnapshotOf;
    if s.mutationSeq < MAX_U64 {
      CountMovesFirst(s, handle.permitId, now);
    }
  }

  lemma AbandonSettles(sys: System, h: nat, clock: ClockReading)
    requires Inv(sys) && IsOpen(sys, h)
    ensures var (s', handle) := Abandon(sys.core, sys.handles[h], clock);
            && !s'.inFlight.active && handle == Handle(false, 0, Closed)
            && s'.mutationSeq == sys.core.mutationSeq
            && LeaseSettled(sys.core, s') && EndIsRemembered(sys.core, s')
  {
    var s1 := if clock.ClockFailed? || clock.now < sys.core.lastObservedAt then sys.core
              else sys.core.(lastObservedAt := clock.now);
    ClosePermitSettles(s1, s1.lastObservedAt);
  }
}
