/** What every reachable coordinator state satisfies, and that every operation keeps it. */
module MutationInvariant {
  import opened Options
  import opened MutationState

  ghost predicate AtMostOnePending(lease: LeaseState) {
    && !(lease.expiryPending && lease.releasePending)
    && !(lease.expiryPending && lease.sessionInvalidationPending)
    && !(lease.releasePending && lease.sessionInvalidationPending)
  }

  ghost predicate AnyPending(lease: LeaseState) {
    lease.expiryPending || lease.releasePending || lease.sessionInvalidationPending
  }

  /** An inactive lease record is blank; an active one has the credentials of a granted request,
      a past incarnation number, the current session unless it waits for its invalidation, and
      pending flags only while a permit pins it. */
  ghost predicate LeaseInv(s: State) {
    && (!s.lease.active ==> s.lease == NO_LEASE)
    && (s.lease.active ==>
          && 1 <= s.lease.incarnation <= s.nextLeaseIncarnation
          && ValidOwner(s.lease.ownerId) && ValidSecret(s.lease.token) && ValidSecret(s.lease.acquisitionNonce)
          && s.lease.token != s.tombstone.token
          && (s.lease.sessionInvalidationPending || s.lease.session == s.session))
    && AtMostOnePending(s.lease)
    && (AnyPending(s.lease) ==> s.lease.active && Pinned(s))
  }

  /** A vacant slot is blank; an occupied one holds a past permit number and either no lease at
      all or exactly the active lease.  Nothing was committed since; the session can only differ
      from the permit's if the emergency epoch has moved on as well. */
  ghost predicate InFlightInv(s: State) {
    && (!s.inFlight.active ==> s.inFlight == NO_IN_FLIGHT)
    && (s.inFlight.active ==>
          && 1 <= s.inFlight.permitId <= s.nextPermitId
          && (if s.lease.active then Pinned(s) else s.inFlight.leaseIncarnation == 0)
          && s.inFlight.session.Valid()
          && s.inFlight.mutationSeq == s.mutationSeq
          && s.inFlight.emergencyEpoch <= s.emergencyEpoch
          && (s.inFlight.session == s.session || s.inFlight.emergencyEpoch < s.emergencyEpoch)
          && (s.lease.sessionInvalidationPending ==> s.inFlight.emergencyEpoch < s.emergencyEpoch))
  }

  ghost predicate CoreInv(s: State) {
    && s.session.Valid()
    && LeaseInv(s)
    && InFlightInv(s)
    && (s.tombstone.reason == NoReason <==> s.tombstone.token == "")
    && (s.tombstone.token != "" ==> ValidSecret(s.tombstone.token))
  }

  lemma PrepareKeepsInv(s: State, now: Tick)
    requires CoreInv(s)
    ensures CoreInv(Prepare(s, now).0)
  {}

  lemma SnapshotKeepsInv(s: State, clock: ClockReading)
    requires CoreInv(s)
    ensures CoreInv(SnapshotEffect(s, clock).0)
  {}

  lemma AcquireKeepsInv(s: State, clock: ClockReading, req: AcquireRequest)
    requires CoreInv(s)
    ensures CoreInv(Acquire(s, clock, req).0)
  {
    hide Prepare;
    if clock.ClockRead? {
      PrepareKeepsInv(s, clock.now);
    }
  }

  lemma RenewKeepsInv(s: State, clock: ClockReading, req: RenewRequest)
    requires CoreInv(s)
    ensures CoreInv(Renew(s, clock, req).0)
  {
    hide Prepare;
    if clock.ClockRead? {
      PrepareKeepsInv(s, clock.now);
    }
  }

  lemma ReleaseKeepsInv(s: State, clock: ClockReading, req: ReleaseRequest)
    requires CoreInv(s)
    ensures CoreInv(Release(s, clock, req).0)
  {
    hide Prepare;
    if clock.ClockRead? {
      PrepareKeepsInv(s, clock.now);
    }
  }

  lemma BeginKeepsInv(s: State, clock: ClockReading, req: BeginRequest)
    requires CoreInv(s)
    ensures CoreInv(Begin(s, clock, req).0)
  {
    hide Prepare;
    if clock.ClockRead? {
      PrepareKeepsInv(s, clock.now);
    }
  }

  lemma EmergencyKeepsInv(s: State, clock: ClockReading)
    requires CoreInv(s)
    ensures CoreInv(EmergencyInvalidate(s, clock).0)
  {
    hide Prepare;
    if clock.ClockRead? {
      PrepareKeepsInv(s, clock.now);
    }
  }

  lemma InstallSessionKeepsInv(s: State, session: SessionIdentity)
    requires CoreInv(s) && session.Valid() && session != s.session
    requires s.emergencyEpoch < MAX_U64
    ensures CoreInv(InstallSession(s, session).0)
  {}

  lemma ReplaceKeepsInv(s: State, clock: ClockReading, session: SessionIdentity)
    requires CoreInv(s)
    ensures CoreInv(ReplaceSession(s, clock, session).0)
  {
    hide Prepare;
    if clock.ClockRead? {
      PrepareKeepsInv(s, clock.now);
      var s1 := Prepare(s, clock.now).0;
      if session.Valid() && session != s1.session && s1.emergencyEpoch < MAX_U64 {
        InstallSessionKeepsInv(s1, session);
      }
    }
  }

  lemma ClosePermitKeepsInv(s: State, permitId: U64, now: Tick)
    requires CoreInv(s)
    ensures CoreInv(ClosePermit(s, permitId, now))
  {}

  lemma CommitInFlightKeepsInv(s: State, handle: Handle, now: Tick, observed: SessionIdentity)
    requires CoreInv(s) && s.inFlight.active && s.inFlight.permitId == handle.permitId
    ensures CoreInv(CommitInFlight(s, handle, now, observed).0)
  {
    hide ClosePermit, CommitRefusal, SnapshotOf;
    ClosePermitKeepsInv(s, handle.permitId, now);
    ClosePermitKeepsInv(s.(counterExhausted := true), handle.permitId, now);
    if s.mutationSeq < MAX_U64 {
      CountMovesFirst(s, handle.permitId, now);
    }
  }

  /** Closing the slot reads nothing of the commit count, so the count may move first. */
  lemma CountMovesFirst(s: State, permitId: U64, now: Tick)
    requires CoreInv(s) && s.inFlight.active && s.inFlight.permitId == permitId && s.mutationSeq < MAX_U64
    ensures var closed := ClosePermit(s, permitId, now);
            && ClosePermit(s.(mutationSeq := s.mutationSeq + 1), permitId, now)
               == closed.(mutationSeq := closed.mutationSeq + 1)
            && closed.mutationSeq == s.mutationSeq && CoreInv(closed.(mutationSeq := closed.mutationSeq + 1))
  {
    ClosePermitKeepsInv(s, permitId, now);
  }

  lemma CommitKeepsInv(s: State, handle: Handle, clock: ClockReading, observed: SessionIdentity)
    requires CoreInv(s)
    ensures CoreInv(Commit(s, handle, clock, observed).0)
  {
    hide ClosePermit, CommitInFlight;
    ClosePermitKeepsInv(s, handle.permitId, s.lastObservedAt);
    if clock.ClockRead? && clock.now >= s.lastObservedAt {
      var s1 := s.(lastObservedAt := clock.now);
      if s1.inFlight.active && s1.inFlight.permitId == handle.permitId {
        CommitInFlightKeepsInv(s1, handle, clock.now, observed);
      }
    }
  }

  lemma AbandonKeepsInv(s: State, handle: Handle, clock: ClockReading)
    requires CoreInv(s)
    ensures CoreInv(Abandon(s, handle, clock).0)
  {
    hide ClosePermit;
    var s1 := if clock.ClockFailed? || clock.now < s.lastObservedAt then s
              else s.(lastObservedAt := clock.now);
    ClosePermitKeepsInv(s1, handle.permitId, s1.lastObservedAt);
  }
}
