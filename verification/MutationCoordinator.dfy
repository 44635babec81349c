/** The coordinator and the permit handle as the objects they are: every method updates the
    shared fields in place, statement by statement, and is proved to have exactly the effect
    that `MutationState` gives it and to keep the invariant of `MutationInvariant`. */
module MutationCoordinator {
  import opened Options
  import opened MutationState
  import opened MutationInvariant

  /** The record that the coordinator and its permit handles share, with the helpers that run
      while its mutex is held. */
  class SharedState {
    var session: SessionIdentity
    var lastObservedAt: Tick
    var leaseRevision: U64
    var mutationSeq: U64
    var emergencyEpoch: U64
    var nextLeaseIncarnation: U64
    var nextPermitId: U64
    var counterExhausted: bool
    var lease: LeaseState
    var tombstone: Tombstone
    var inFlight: InFlightState

    function View(): State
      reads this
    {
      State(session, lastObservedAt, leaseRevision, mutationSeq, emergencyEpoch,
            nextLeaseIncarnation, nextPermitId, counterExhausted, lease, tombstone, inFlight)
    }

    ghost predicate Valid()
      reads this
    {
      CoreInv(View())
    }

    constructor (initialSession: SessionIdentity)
      requires initialSession.Valid()
      ensures View() == InitialState(initialSession) && Valid()
    {
      session := initialSession;
      lastObservedAt, leaseRevision, mutationSeq, emergencyEpoch := 0, 0, 0, 0;
      nextLeaseIncarnation, nextPermitId, counterExhausted := 0, 0, false;
      lease, tombstone, inFlight := NO_LEASE, Tombstone("", NoReason), NO_IN_FLIGHT;
    }

    method BumpLeaseRevisionLocked() returns (error: Error)
      modifies this
      ensures (View(), error) == BumpLeaseRevision(old(View()))
    {
      if leaseRevision == MAX_U64 {
        counterExhausted := true;
        return CounterExhausted;
      }
      leaseRevision := leaseRevision + 1;
      return NoError;
    }

    method FinalizeLeaseLocked(reason: TombstoneReason) returns (error: Error)
      modifies this
      ensures (View(), error) == FinalizeLease(old(View()), reason)
    {
      tombstone := Tombstone(lease.token, reason);
      lease := NO_LEASE;
      error := BumpLeaseRevisionLocked();
    }

    method RefreshExpiryLocked(now: Tick) returns (error: Error)
      modifies this
      ensures (View(), error) == RefreshExpiry(old(View()), now)
    {
      if !lease.active || lease.sessionInvalidationPending || lease.releasePending
         || lease.expiryPending || now < lease.expiresAt
      {
        return NoError;
      }
      if inFlight.active && inFlight.leaseIncarnation == lease.incarnation {
        lease := lease.(expiryPending := true);
        error := BumpLeaseRevisionLocked();
        return;
      }
      error := FinalizeLeaseLocked(Expired);
    }

    method PrepareLocked(now: Tick) returns (error: Error)
      modifies this
      ensures (View(), error) == Prepare(old(View()), now)
    {
      if counterExhausted {
        return CounterExhausted;
      }
      if now < lastObservedAt {
        return ClockRegression;
      }
      lastObservedAt := now;
      error := RefreshExpiryLocked(now);
    }

    method FinalizePendingLeaseLocked(now: Tick) returns (error: Error)
      modifies this
      ensures (View(), error) == FinalizePendingLease(old(View()), now)
    {
      if !lease.active || inFlight.active {
        return NoError;
      }
      if lease.sessionInvalidationPending {
        error := FinalizeLeaseLocked(SessionInvalidated);
      } else if lease.releasePending {
        error := FinalizeLeaseLocked(Released);
      } else if lease.expiryPending || now >= lease.expiresAt {
        error := FinalizeLeaseLocked(Expired);
      } else {
        error := NoError;
      }
    }

    /** The half of an acquire that meets no active lease. */
    method GrantAcquireLocked(req: AcquireRequest, deadline: Tick) returns (result: LeaseResult)
      modifies this
      ensures (View(), result) == GrantAcquire(old(View()), req, deadline)
    {
      hide SnapshotOf, ClassifyNonCurrentToken;
      if inFlight.active {
        return LeaseError(View(), MutationBusy);
      }
      if req.expectedLeaseRevision != leaseRevision {
        return LeaseError(View(), StaleLeaseRevision);
      }
      var candidateClassification := ClassifyNonCurrentToken(View(), req.proposedLeaseToken);
      if candidateClassification != UnknownLeaseToken {
        return LeaseError(View(), candidateClassification);
      }
      if nextLeaseIncarnation == MAX_U64 {
        counterExhausted := true;
        return LeaseError(View(), CounterExhausted);
      }
      nextLeaseIncarnation := nextLeaseIncarnation + 1;
      var error := BumpLeaseRevisionLocked();
      if error != NoError {
        return LeaseError(View(), error);
      }
      lease := lease.(active := true, incarnation := nextLeaseIncarnation,
                      token := req.proposedLeaseToken, ownerId := req.ownerId,
                      acquisitionNonce := req.acquisitionNonce,
                      session := req.session, expiresAt := deadline);
      result := LeaseResult(NoError, SnapshotOf(View()), lease.token, deadline, false, false);
    }

    method ClosePermitLocked(permitId: U64, now: Tick)
      modifies this
      ensures View() == ClosePermit(old(View()), permitId, now)
    {
      if !inFlight.active || inFlight.permitId != permitId {
        return;
      }
      inFlight := NO_IN_FLIGHT;
      var finalizationError := FinalizePendingLeaseLocked(now);
      if finalizationError == CounterExhausted {
        counterExhausted := true;
      }
    }
  }

  class MutationCoordinator {
    const state: SharedState

    constructor (initialSession: SessionIdentity)
      requires initialSession.Valid()
      ensures fresh(state) && state.View() == InitialState(initialSession) && state.Valid()
    {
      state := new SharedState(initialSession);
    }

    /** The checks of construction.  The source throws where there is no coordinator. */
    static method Construct(initialSession: SessionIdentity, hasClock: bool) returns (made: Option<MutationCoordinator>)
      ensures made.Some? <==> initialSession.Valid() && hasClock
      ensures made.Some? ==> fresh(made.value) && fresh(made.value.state) && made.value.state.Valid()
                             && made.value.state.View() == InitialState(initialSession)
    {
      if !initialSession.Valid() || !hasClock {
        return None;
      }
      var coordinator := new MutationCoordinator(initialSession);
      made := Some(coordinator);
    }

    method TakeSnapshot(clock: ClockReading) returns (result: OperationResult)
      requires state.Valid()
      modifies state
      ensures (state.View(), result) == SnapshotEffect(old(state.View()), clock)
      ensures state.Valid()
    {
      SnapshotKeepsInv(state.View(), clock);
      if clock.ClockFailed? {
        return OperationResult(ClockFailure, SnapshotOf(state.View()));
      }
      var error := state.PrepareLocked(clock.now);
      result := OperationResult(error, SnapshotOf(state.View()));
    }

    method AcquireLease(clock: ClockReading, req: AcquireRequest) returns (result: LeaseResult)
      requires state.Valid()
      modifies state
      ensures (state.View(), result) == Acquire(old(state.View()), clock, req)
      ensures state.Valid()
    {
      AcquireKeepsInv(state.View(), clock, req);
      if !req.session.Valid() {
        return EarlyLeaseError(InvalidSession);
      }
      if !ValidOwner(req.ownerId) {
        return EarlyLeaseError(InvalidOwner);
      }
      if !ValidSecret(req.acquisitionNonce) {
        return EarlyLeaseError(InvalidAcquisitionNonce);
      }
      if !ValidSecret(req.proposedLeaseToken) || req.proposedLeaseToken == req.acquisitionNonce {
        return EarlyLeaseError(InvalidLeaseToken);
      }
      if clock.ClockFailed? {
        return EarlyLeaseError(ClockFailure);
      }
      if !DeadlineFits(clock.now, req.ttl) {
        return EarlyLeaseError(InvalidTtl);
      }
      var deadline := clock.now + req.ttl;

      var error := state.PrepareLocked(clock.now);
      if error != NoError {
        return LeaseError(state.View(), error);
      }
      error := ValidateRequestSession(state.View(), req.session);
      if error != NoError {
        return LeaseError(state.View(), error);
      }

      if state.lease.active {
        if state.lease.sessionInvalidationPending {
          return LeaseError(state.View(), LeaseSessionInvalidationPending);
        }
        if state.lease.releasePending {
          return LeaseError(state.View(), LeaseReleasePending);
        }
        if state.lease.expiryPending {
          return LeaseError(state.View(), LeaseExpiryPending);
        }
        if req.ownerId != state.lease.ownerId {
          return LeaseError(state.View(), LeaseBusy);
        }
        if req.acquisitionNonce != state.lease.acquisitionNonce {
          return LeaseError(state.View(), AcquisitionNonceMismatch);
        }
        if req.expectedLeaseRevision != state.leaseRevision {
          return LeaseError(state.View(), StaleLeaseRevision);
        }
        return LeaseResult(NoError, SnapshotOf(state.View()), state.lease.token, state.lease.expiresAt,
                           true, false);
      }

      result := state.GrantAcquireLocked(req, deadline);
    }

    method RenewLease(clock: ClockReading, req: RenewRequest) returns (result: LeaseResult)
      requires state.Valid()
      modifies state
      ensures (state.View(), result) == Renew(old(state.View()), clock, req)
      ensures state.Valid()
    {
      RenewKeepsInv(state.View(), clock, req);
      if !req.session.Valid() {
        return EarlyLeaseError(InvalidSession);
      }
      if !ValidOwner(req.ownerId) {
        return EarlyLeaseError(InvalidOwner);
      }
      if !ValidSecret(req.acquisitionNonce) {
        return EarlyLeaseError(InvalidAcquisitionNonce);
      }
      if !ValidSecret(req.leaseToken) {
        return EarlyLeaseError(InvalidLeaseToken);
      }
      if clock.ClockFailed? {
        return EarlyLeaseError(ClockFailure);
      }
      if !DeadlineFits(clock.now, req.ttl) {
        return EarlyLeaseError(InvalidTtl);
      }
      var deadline := clock.now + req.ttl;

      var error := state.PrepareLocked(clock.now);
      if error != NoError {
        return LeaseError(state.View(), error);
      }
      error := ValidateRequestSession(state.View(), req.session);
      if error != NoError {
        return LeaseError(state.View(), error);
      }
      error := ValidateCredentials(state.View(), req.ownerId, req.acquisitionNonce, req.leaseToken);
      if error != NoError {
        return LeaseError(state.View(), error);
      }
      if state.lease.sessionInvalidationPending {
        return LeaseError(state.View(), LeaseSessionInvalidationPending);
      }
      if state.lease.releasePending {
        return LeaseError(state.View(), LeaseReleasePending);
      }
      if req.expectedLeaseRevision != state.leaseRevision {
        return LeaseError(state.View(), StaleLeaseRevision);
      }
      error := state.BumpLeaseRevisionLocked();
      if error != NoError {
        return LeaseError(state.View(), error);
      }
      state.lease := state.lease.(expiresAt := deadline);
      state.lease := state.lease.(expiryPending := false);
      result := LeaseResult(NoError, SnapshotOf(state.View()), state.lease.token, deadline, false, false);
    }

    method ReleaseLease(clock: ClockReading, req: ReleaseRequest) returns (result: LeaseResult)
      requires state.Valid()
      modifies state
      ensures (state.View(), result) == Release(old(state.View()), clock, req)
      ensures state.Valid()
    {
      ReleaseKeepsInv(state.View(), clock, req);
      if !req.session.Valid() {
        return EarlyLeaseError(InvalidSession);
      }
      if !ValidOwner(req.ownerId) {
        return EarlyLeaseError(InvalidOwner);
      }
      if !ValidSecret(req.acquisitionNonce) {
        return EarlyLeaseError(InvalidAcquisitionNonce);
      }
      if !ValidSecret(req.leaseToken) {
        return EarlyLeaseError(InvalidLeaseToken);
      }
      if clock.ClockFailed? {
        return EarlyLeaseError(ClockFailure);
      }

      var error := state.PrepareLocked(clock.now);
      if error != NoError {
        return LeaseError(state.View(), error);
      }
      error := ValidateRequestSession(state.View(), req.session);
      if error != NoError {
        return LeaseError(state.View(), error);
      }
      error := ValidateCredentials(state.View(), req.ownerId, req.acquisitionNonce, req.leaseToken);
      if error != NoError {
        return LeaseError(state.View(), error);
      }
      if state.lease.sessionInvalidationPending {
        return LeaseError(state.View(), LeaseSessionInvalidationPending);
      }
      if req.expectedLeaseRevision != state.leaseRevision {
        return LeaseError(state.View(), StaleLeaseRevision);
      }
      if state.lease.releasePending {
        return LeaseResult(NoError, SnapshotOf(state.View()), "", 0, false, true);
      }
      var pinned := state.inFlight.active && state.inFlight.leaseIncarnation == state.lease.incarnation;
      if pinned {
        error := state.BumpLeaseRevisionLocked();
        if error != NoError {
          return LeaseError(state.View(), error);
        }
        state.lease := state.lease.(releasePending := true);
        state.lease := state.lease.(expiryPending := false);
        return LeaseResult(NoError, SnapshotOf(state.View()), "", 0, false, true);
      }
      error := state.FinalizeLeaseLocked(Released);
      result := LeaseResult(error, SnapshotOf(state.View()), "", 0, false, false);
    }

    /** On success the permit of the reply is an open handle on `state`; otherwise it is empty. */
    method BeginMutation(clock: ClockReading, req: BeginRequest)
      returns (error: Error, snapshot: Snapshot, permit: MutationPermit)
      requires state.Valid()
      modifies state
      ensures fresh(permit) && permit.Valid()
      ensures permit.state != null ==> permit.state == state
      ensures (state.View(), BeginResult(error, snapshot, permit.Local()))
           == Begin(old(state.View()), clock, req)
      ensures state.Valid()
    {
      hide SnapshotOf, Prepare, CoreInv, ValidateCredentials;
      BeginKeepsInv(state.View(), clock, req);
      snapshot := EMPTY_SNAPSHOT;
      permit := new MutationPermit();
      if !req.session.Valid() {
        error := InvalidSession;
        return;
      }
      var hasAnyCredentials := req.ownerId != "" || req.acquisitionNonce != "" || req.leaseToken != "";
      if hasAnyCredentials {
        if !ValidOwner(req.ownerId) {
          error := InvalidOwner;
          return;
        }
        if !ValidSecret(req.acquisitionNonce) {
          error := InvalidAcquisitionNonce;
          return;
        }
        if !ValidSecret(req.leaseToken) {
          error := InvalidLeaseToken;
          return;
        }
      }
      if clock.ClockFailed? {
        error := ClockFailure;
        return;
      }

      error := state.PrepareLocked(clock.now);
      if error == NoError {
        error := ValidateRequestSession(state.View(), req.session);
      }
      if error == NoError && state.lease.active {
        if !hasAnyCredentials {
          error := LeaseRequired;
        } else {
          error := ValidateCredentials(state.View(), req.ownerId, req.acquisitionNonce, req.leaseToken);
        }
        if error == NoError && state.lease.sessionInvalidationPending {
          error := LeaseSessionInvalidationPending;
        }
        if error == NoError && state.lease.releasePending {
          error := LeaseReleasePending;
        }
        if error == NoError && state.lease.expiryPending {
          error := LeaseExpiryPending;
        }
      } else if error == NoError && hasAnyCredentials {
        error := ClassifyNonCurrentToken(state.View(), req.leaseToken);
      }
      if error == NoError && req.expectedLeaseRevision != state.leaseRevision {
        error := StaleLeaseRevision;
      }
      if error == NoError && req.expectedMutationSeq != state.mutationSeq {
        error := StaleMutationSequence;
      }
      if error == NoError && req.expectedEmergencyEpoch != state.emergencyEpoch {
        error := StaleEmergencyEpoch;
      }
      if error == NoError && state.inFlight.active {
        error := MutationBusy;
      }
      if error != NoError {
        snapshot := SnapshotOf(state.View());
        return;
      }

      if state.nextPermitId == MAX_U64 {
        state.counterExhausted := true;
        error := CounterExhausted;
        snapshot := SnapshotOf(state.View());
        return;
      }
      state.nextPermitId := state.nextPermitId + 1;
      state.inFlight := InFlightState(true, state.nextPermitId,
                                      if state.lease.active then state.lease.incarnation else 0,
                                      req.session, state.mutationSeq, state.emergencyEpoch);
      snapshot := SnapshotOf(state.View());
      permit := new MutationPermit.On(state, state.inFlight.permitId);
    }

    method EmergencyInvalidateAll(clock: ClockReading) returns (result: OperationResult)
      requires state.Valid()
      modifies state
      ensures (state.View(), result) == EmergencyInvalidate(old(state.View()), clock)
      ensures state.Valid()
    {
      EmergencyKeepsInv(state.View(), clock);
      if clock.ClockFailed? {
        return OperationResult(ClockFailure, EMPTY_SNAPSHOT);
      }
      var error := state.PrepareLocked(clock.now);
      if error == NoError {
        if state.emergencyEpoch == MAX_U64 {
          state.counterExhausted := true;
          error := CounterExhausted;
        } else {
          state.emergencyEpoch := state.emergencyEpoch + 1;
        }
      }
      result := OperationResult(error, SnapshotOf(state.View()));
    }

    method ReplaceCurrentSession(clock: ClockReading, newSession: SessionIdentity)
      returns (result: OperationResult)
      requires state.Valid()
      modifies state
      ensures (state.View(), result) == ReplaceSession(old(state.View()), clock, newSession)
      ensures state.Valid()
    {
      hide SnapshotOf, Prepare, CoreInv;
      ReplaceKeepsInv(state.View(), clock, newSession);
      if !newSession.Valid() {
        return OperationResult(InvalidSession, EMPTY_SNAPSHOT);
      }
      if clock.ClockFailed? {
        return OperationResult(ClockFailure, EMPTY_SNAPSHOT);
      }
      var error := state.PrepareLocked(clock.now);
      if error != NoError {
        return OperationResult(error, SnapshotOf(state.View()));
      }
      if newSession == state.session {
        return OperationResult(NoError, SnapshotOf(state.View()));
      }
      if newSession.bridgeInstanceId == state.session.bridgeInstanceId
         && newSession.generation <= state.session.generation
      {
        return OperationResult(StaleSessionGeneration, SnapshotOf(state.View()));
      }
      if state.emergencyEpoch == MAX_U64 {
        state.counterExhausted := true;
        return OperationResult(CounterExhausted, SnapshotOf(state.View()));
      }
      state.emergencyEpoch := state.emergencyEpoch + 1;
      state.session := newSession;
      if state.lease.active {
        var pinned := state.inFlight.active && state.inFlight.leaseIncarnation == state.lease.incarnation;
        if pinned {
          state.lease := state.lease.(sessionInvalidationPending := true);
          state.lease := state.lease.(releasePending := false);
          state.lease := state.lease.(expiryPending := false);
          error := state.BumpLeaseRevisionLocked();
        } else {
          error := state.FinalizeLeaseLocked(SessionInvalidated);
        }
      }
      result := OperationResult(error, SnapshotOf(state.View()));
    }
  }

  /** The move-only permit.  A destructor is a call of `AbandonPermit` that nobody follows. */
  class MutationPermit {
    var state: SharedState?
    var permitId: U64
    var localState: LocalState

    function Local(): Handle
      reads this
    {
      Handle(state != null, permitId, localState)
    }

    /** An open handle can reach the state it was opened on. */
    ghost predicate Valid()
      reads this
    {
      localState == Open ==> state != null && permitId != 0
    }

    constructor ()
      ensures Local() == EMPTY_HANDLE && Valid() && state == null
    {
      state, permitId, localState := null, 0, Empty;
    }

    constructor On(shared: SharedState, id: U64)
      requires id != 0
      ensures Local() == Handle(true, id, Open) && Valid() && state == shared
    {
      state, permitId, localState := shared, id, Open;
    }

    constructor MovedFrom(other: MutationPermit)
      requires other.Valid()
      modifies other
      ensures Local() == old(other.Local()) && state == old(other.state) && Valid()
      ensures other.Local() == EMPTY_HANDLE && other.Valid()
    {
      state, permitId, localState := other.state, other.permitId, other.localState;
      new;
      other.state, other.permitId, other.localState := null, 0, Empty;
    }

    /** Overwriting a handle abandons it first; moving a handle onto itself does nothing. */
    method MoveAssign(clock: ClockReading, other: MutationPermit)
      requires Valid() && other.Valid()
      requires state != null ==> state.Valid()
      modifies this, other, state
      ensures Valid() && other.Valid()
      ensures other == this ==> unchanged(this) && (old(state) != null ==> unchanged(old(state)))
      ensures other != this ==>
                Local() == old(other.Local()) && state == old(other.state) && other.Local() == EMPTY_HANDLE
      ensures other != this && old(state) != null ==>
                && old(state).View() == Abandon(old(state.View()), old(Local()), clock).0
                && old(state).Valid()
    {
      if this == other {
        return;
      }
      AbandonPermit(clock);
      state, permitId, localState := other.state, other.permitId, other.localState;
      other.state, other.permitId, other.localState := null, 0, Empty;
    }

    predicate Active()
      reads this
    {
      localState == Open && state != null && permitId != 0
    }

    method CommitPermit(clock: ClockReading, observedSession: SessionIdentity) returns (result: CommitResult)
      requires Valid()
      requires state != null ==> state.Valid()
      modifies this, state
      ensures Valid() && state == old(state) && permitId == old(permitId)
      ensures state != null ==>
                && (state.View(), Local(), result) == Commit(old(state.View()), old(Local()), clock, observedSession)
                && state.Valid()
      ensures state == null ==>
                && Local() == old(Local())
                && result == CommitResult(if localState == Committed then PermitAlreadyCommitted else PermitNotActive,
                                          EMPTY_SNAPSHOT, 0)
    {
      if state != null {
        CommitKeepsInv(state.View(), Local(), clock, observedSession);
      }
      if localState == Committed {
        return CommitResult(PermitAlreadyCommitted, EMPTY_SNAPSHOT, 0);
      }
      if !Active() {
        return CommitResult(PermitNotActive, EMPTY_SNAPSHOT, 0);
      }
      if clock.ClockFailed? {
        state.ClosePermitLocked(permitId, state.lastObservedAt);
        localState := Closed;
        return CommitResult(ClockFailure, SnapshotOf(state.View()), 0);
      }
      if clock.now < state.lastObservedAt {
        state.ClosePermitLocked(permitId, state.lastObservedAt);
        localState := Closed;
        return CommitResult(ClockRegression, SnapshotOf(state.View()), 0);
      }
      state.lastObservedAt := clock.now;
      if !state.inFlight.active || state.inFlight.permitId != permitId {
        localState := Closed;
        return CommitResult(PermitNotActive, SnapshotOf(state.View()), 0);
      }
      result := CommitInFlightLocked(clock.now, observedSession);
    }

    /** The rest of a commit whose permit still holds the slot. */
    method CommitInFlightLocked(now: Tick, observedSession: SessionIdentity) returns (result: CommitResult)
      requires state != null
      modifies this, state
      ensures state == old(state) && permitId == old(permitId)
      ensures (state.View(), Local(), result) == CommitInFlight(old(state.View()), old(Local()), now, observedSession)
    {
      hide ClosePermit, SnapshotOf;
      var error := NoError;
      if state.counterExhausted {
        error := CounterExhausted;
      } else if !observedSession.Valid() || observedSession != state.inFlight.session
                || state.session != state.inFlight.session
      {
        error := SessionChanged;
      } else if state.emergencyEpoch != state.inFlight.emergencyEpoch {
        error := EmergencyInvalidated;
      } else if state.inFlight.leaseIncarnation != 0
                && (!state.lease.active || state.lease.incarnation != state.inFlight.leaseIncarnation)
      {
        error := StaleLeaseToken;
      } else if state.mutationSeq != state.inFlight.mutationSeq {
        error := StaleMutationSequence;
      }
      if error == NoError {
        if state.mutationSeq == MAX_U64 {
          state.counterExhausted := true;
          error := CounterExhausted;
        } else {
          state.mutationSeq := state.mutationSeq + 1;
        }
      }
      var committedMutationSeq: U64 := 0;
      if error == NoError {
        committedMutationSeq := state.mutationSeq;
      }
      state.ClosePermitLocked(permitId, now);
      localState := if error == NoError then Committed else Closed;
      result := CommitResult(error, SnapshotOf(state.View()), committedMutationSeq);
    }

    method AbandonPermit(clock: ClockReading)
      requires Valid()
      requires state != null ==> state.Valid()
      modifies this, state
      ensures Valid()
      ensures old(state) != null ==>
                && (old(state).View(), Local()) == Abandon(old(state.View()), old(Local()), clock)
                && old(state).Valid()
      ensures old(state) == null ==> unchanged(this)
    {
      if !Active() {
        return;
      }
      AbandonKeepsInv(state.View(), Local(), clock);
      var now: Tick := if clock.ClockRead? then clock.now else 0;
      if clock.ClockFailed? || now < state.lastObservedAt {
        now := state.lastObservedAt;
      } else {
        state.lastObservedAt := now;
      }
      state.ClosePermitLocked(permitId, now);
      localState := Closed;
      permitId := 0;
      state := null;
    }
  }
}
