/** The state of the mutation coordinator and the effect of every operation on it.

    Each public operation of the original is one lock region, so each is one function from
    the state before to the state after and the reply.  The clock is read before the lock is
    taken, hence the reading is an input that may fail or go backwards.
    `MutationCoordinator` proves that the field-by-field code has exactly these effects;
    `MutationProtocol` proves what the effects mean over whole runs. */
module MutationState {
  import opened Options

  type Tick = U64

  datatype Error =
    | NoError
    | InvalidSession | SessionMismatch | StaleSessionGeneration
    | InvalidOwner | InvalidAcquisitionNonce | InvalidLeaseToken | InvalidTtl
    | LeaseBusy | LeaseRequired
    | UnknownLeaseToken | ExpiredLeaseToken | StaleLeaseToken
    | OwnerMismatch | AcquisitionNonceMismatch
    | StaleLeaseRevision | StaleMutationSequence | StaleEmergencyEpoch
    | LeaseExpiryPending | LeaseReleasePending | LeaseSessionInvalidationPending
    | MutationBusy | PermitNotActive | PermitAlreadyCommitted
    | SessionChanged | EmergencyInvalidated
    | ClockFailure | ClockRegression | CounterExhausted

  datatype ClockReading = ClockFailed | ClockRead(now: Tick)

  // Validation of texts

  predicate PrintableAscii(text: string) {
    forall i | 0 <= i < |text| :: '!' <= text[i] <= '~'
  }

  predicate ValidIdentityText(text: string) {
    0 < |text| <= 256 && PrintableAscii(text)
  }

  predicate ValidOwner(text: string) {
    0 < |text| <= 128 && PrintableAscii(text)
  }

  predicate ValidSecret(text: string) {
    32 <= |text| <= 256 && PrintableAscii(text)
  }

  predicate HexDigit(c: char) {
    '0' <= c <= '9' || 'a' <= c <= 'f' || 'A' <= c <= 'F'
  }

  datatype SessionIdentity = SessionIdentity(
    bridgeInstanceId: string, sessionId: string,
    generation: U64, processId: U64, targetSha256: string)
  {
    predicate Valid() {
      && ValidIdentityText(bridgeInstanceId) && ValidIdentityText(sessionId)
      && generation != 0 && processId != 0
      && |targetSha256| == 64
      && forall i | 0 <= i < |targetSha256| :: HexDigit(targetSha256[i])
    }
  }

  const EMPTY_SESSION := SessionIdentity("", "", 0, 0, "")

  // The shared state

  datatype TombstoneReason = NoReason | Expired | Released | SessionInvalidated

  datatype LeaseState = LeaseState(
    active: bool, incarnation: U64, token: string, ownerId: string, acquisitionNonce: string,
    session: SessionIdentity, expiresAt: Tick,
    expiryPending: bool, releasePending: bool, sessionInvalidationPending: bool)

  const NO_LEASE := LeaseState(false, 0, "", "", "", EMPTY_SESSION, 0, false, false, false)

  datatype Tombstone = Tombstone(token: string, reason: TombstoneReason)

  datatype InFlightState = InFlightState(
    active: bool, permitId: U64, leaseIncarnation: U64,
    session: SessionIdentity, mutationSeq: U64, emergencyEpoch: U64)

  const NO_IN_FLIGHT := InFlightState(false, 0, 0, EMPTY_SESSION, 0, 0)

  datatype State = State(
    session: SessionIdentity, lastObservedAt: Tick,
    leaseRevision: U64, mutationSeq: U64, emergencyEpoch: U64,
    nextLeaseIncarnation: U64, nextPermitId: U64, counterExhausted: bool,
    lease: LeaseState, tombstone: Tombstone, inFlight: InFlightState)

  function InitialState(session: SessionIdentity): State {
    State(session, 0, 0, 0, 0, 0, 0, false, NO_LEASE, Tombstone("", NoReason), NO_IN_FLIGHT)
  }

  /** The in-flight permit was begun under the active lease. */
  predicate Pinned(s: State) {
    s.inFlight.active && s.inFlight.leaseIncarnation == s.lease.incarnation
  }

  // A permit handle: `attached` says that its pointer to the shared state is not null.

  datatype LocalState = Empty | Open | Committed | Closed

  datatype Handle = Handle(attached: bool, permitId: U64, localState: LocalState) {
    predicate Active() {
      localState == Open && attached && permitId != 0
    }
  }

  const EMPTY_HANDLE := Handle(false, 0, Empty)

  // Requests and replies

  datatype Snapshot = Snapshot(
    session: SessionIdentity, leaseRevision: U64, mutationSeq: U64, emergencyEpoch: U64,
    observedAt: Tick, leaseExpiresAt: Tick, leaseOwnerId: string,
    leaseActive: bool, leaseExpiryPending: bool, leaseReleasePending: bool,
    leaseSessionInvalidationPending: bool, mutationInFlight: bool)

  const EMPTY_SNAPSHOT := Snapshot(EMPTY_SESSION, 0, 0, 0, 0, 0, "", false, false, false, false, false)

  function SnapshotOf(s: State): Snapshot {
    Snapshot(s.session, s.leaseRevision, s.mutationSeq, s.emergencyEpoch, s.lastObservedAt,
             if s.lease.active then s.lease.expiresAt else 0,
             if s.lease.active then s.lease.ownerId else "",
             s.lease.active, s.lease.expiryPending, s.lease.releasePending,
             s.lease.sessionInvalidationPending, s.inFlight.active)
  }

  datatype AcquireRequest = AcquireRequest(
    session: SessionIdentity, ownerId: string, acquisitionNonce: string,
    proposedLeaseToken: string, ttl: Tick, expectedLeaseRevision: U64)

  datatype RenewRequest = RenewRequest(
    session: SessionIdentity, ownerId: string, acquisitionNonce: string,
    leaseToken: string, ttl: Tick, expectedLeaseRevision: U64)

  datatype ReleaseRequest = ReleaseRequest(
    session: SessionIdentity, ownerId: string, acquisitionNonce: string,
    leaseToken: string, expectedLeaseRevision: U64)

  datatype BeginRequest = BeginRequest(
    session: SessionIdentity, ownerId: string, acquisitionNonce: string, leaseToken: string,
    expectedLeaseRevision: U64, expectedMutationSeq: U64, expectedEmergencyEpoch: U64)
  {
    predicate HasAnyCredentials() {
      ownerId != "" || acquisitionNonce != "" || leaseToken != ""
    }
  }

  datatype OperationResult = OperationResult(error: Error, snapshot: Snapshot)

  datatype LeaseResult = LeaseResult(
    error: Error, snapshot: Snapshot, leaseToken: string, expiresAt: Tick,
    replayed: bool, pending: bool)

  datatype BeginResult = BeginResult(error: Error, snapshot: Snapshot, permit: Handle)

  datatype CommitResult = CommitResult(error: Error, snapshot: Snapshot, committedMutationSeq: U64)

  function EarlyLeaseError(error: Error): LeaseResult {
    LeaseResult(error, EMPTY_SNAPSHOT, "", 0, false, false)
  }

  function LeaseError(s: State, error: Error): LeaseResult {
    LeaseResult(error, SnapshotOf(s), "", 0, false, false)
  }

  // Effects of the helpers that run under the lock

  function BumpLeaseRevision(s: State): (State, Error) {
    if s.leaseRevision == MAX_U64 then (s.(counterExhausted := true), CounterExhausted)
    else (s.(leaseRevision := s.leaseRevision + 1), NoError)
  }

  function FinalizeLease(s: State, reason: TombstoneReason): (State, Error) {
    BumpLeaseRevision(s.(tombstone := Tombstone(s.lease.token, reason), lease := NO_LEASE))
  }

  function RefreshExpiry(s: State, now: Tick): (State, Error) {
    if !s.lease.active || s.lease.sessionInvalidationPending || s.lease.releasePending
       || s.lease.expiryPending || now < s.lease.expiresAt
    then (s, NoError)
    else if Pinned(s) then BumpLeaseRevision(s.(lease := s.lease.(expiryPending := true)))
    else FinalizeLease(s, Expired)
  }

  function Prepare(s: State, now: Tick): (State, Error) {
    if s.counterExhausted then (s, CounterExhausted)
    else if now < s.lastObservedAt then (s, ClockRegression)
    else RefreshExpiry(s.(lastObservedAt := now), now)
  }

  function ClassifyNonCurrentToken(s: State, token: string): Error {
    if s.tombstone.token != "" && token == s.tombstone.token
    then if s.tombstone.reason == Expired then ExpiredLeaseToken else StaleLeaseToken
    else UnknownLeaseToken
  }

  function ValidateRequestSession(s: State, session: SessionIdentity): Error {
    if !session.Valid() then InvalidSession
    else if session != s.session then SessionMismatch
    else NoError
  }

  function ValidateCredentials(s: State, ownerId: string, acquisitionNonce: string, token: string): Error {
    if !s.lease.active || token != s.lease.token then ClassifyNonCurrentToken(s, token)
    else if ownerId != s.lease.ownerId then OwnerMismatch
    else if acquisitionNonce != s.lease.acquisitionNonce then AcquisitionNonceMismatch
    else NoError
  }

  function FinalizePendingLease(s: State, now: Tick): (State, Error) {
    if !s.lease.active || s.inFlight.active then (s, NoError)
    else if s.lease.sessionInvalidationPending then FinalizeLease(s, SessionInvalidated)
    else if s.lease.releasePending then FinalizeLease(s, Released)
    else if s.lease.expiryPending || now >= s.lease.expiresAt then FinalizeLease(s, Expired)
    else (s, NoError)
  }

  function ClosePermit(s: State, permitId: U64, now: Tick): State {
    if !s.inFlight.active || s.inFlight.permitId != permitId then s
    else
      var (s1, error) := FinalizePendingLease(s.(inFlight := NO_IN_FLIGHT), now);
      if error == CounterExhausted then s1.(counterExhausted := true) else s1
  }

  // Effects of the public operations

  function SnapshotEffect(s: State, clock: ClockReading): (State, OperationResult) {
    if clock.ClockFailed? then (s, OperationResult(ClockFailure, SnapshotOf(s)))
    else
      var (s1, error) := Prepare(s, clock.now);
      (s1, OperationResult(error, SnapshotOf(s1)))
  }

  /** A positive time to live whose deadline fits into a tick. */
  predicate DeadlineFits(now: Tick, ttl: Tick) {
    ttl != 0 && ttl <= MAX_U64 - now
  }

  function AcquireRefusal(req: AcquireRequest, clock: ClockReading): Error {
    if !req.session.Valid() then InvalidSession
    else if !ValidOwner(req.ownerId) then InvalidOwner
    else if !ValidSecret(req.acquisitionNonce) then InvalidAcquisitionNonce
    else if !ValidSecret(req.proposedLeaseToken) || req.proposedLeaseToken == req.acquisitionNonce
    then InvalidLeaseToken
    else if clock.ClockFailed? then ClockFailure
    else if !DeadlineFits(clock.now, req.ttl) then InvalidTtl
    else NoError
  }

  function Acquire(s: State, clock: ClockReading, req: AcquireRequest): (State, LeaseResult) {
    var early := AcquireRefusal(req, clock);
    if early != NoError then (s, EarlyLeaseError(early))
    else
      var (s1, error) := Prepare(s, clock.now);
      if error != NoError then (s1, LeaseError(s1, error))
      else
        var mismatch := ValidateRequestSession(s1, req.session);
        if mismatch != NoError then (s1, LeaseError(s1, mismatch))
        else if s1.lease.active then (s1, ReplayAcquire(s1, req))
        else GrantAcquire(s1, req, clock.now + req.ttl)
  }

  /** An acquire that meets an active lease: the same owner may read it back, nobody else. */
  function ReplayAcquire(s: State, req: AcquireRequest): LeaseResult {
    if s.lease.sessionInvalidationPending then LeaseError(s, LeaseSessionInvalidationPending)
    else if s.lease.releasePending then LeaseError(s, LeaseReleasePending)
    else if s.lease.expiryPending then LeaseError(s, LeaseExpiryPending)
    else if req.ownerId != s.lease.ownerId then LeaseError(s, LeaseBusy)
    else if req.acquisitionNonce != s.lease.acquisitionNonce then LeaseError(s, AcquisitionNonceMismatch)
    else if req.expectedLeaseRevision != s.leaseRevision then LeaseError(s, StaleLeaseRevision)
    else LeaseResult(NoError, SnapshotOf(s), s.lease.token, s.lease.expiresAt, true, false)
  }

  function GrantAcquire(s: State, req: AcquireRequest, deadline: Tick): (State, LeaseResult) {
    if s.inFlight.active then (s, LeaseError(s, MutationBusy))
    else if req.expectedLeaseRevision != s.leaseRevision then (s, LeaseError(s, StaleLeaseRevision))
    else if ClassifyNonCurrentToken(s, req.proposedLeaseToken) != UnknownLeaseToken
    then (s, LeaseError(s, ClassifyNonCurrentToken(s, req.proposedLeaseToken)))
    else if s.nextLeaseIncarnation == MAX_U64
    then var s1 := s.(counterExhausted := true); (s1, LeaseError(s1, CounterExhausted))
    else
      var (s1, error) := BumpLeaseRevision(s.(nextLeaseIncarnation := s.nextLeaseIncarnation + 1));
      if error != NoError then (s1, LeaseError(s1, error))
      else
        var s2 := s1.(lease := s1.lease.(
                      active := true, incarnation := s1.nextLeaseIncarnation,
                      token := req.proposedLeaseToken, ownerId := req.ownerId,
                      acquisitionNonce := req.acquisitionNonce, session := req.session,
                      expiresAt := deadline));
        (s2, LeaseResult(NoError, SnapshotOf(s2), req.proposedLeaseToken, deadline, false, false))
  }

  /** The checks that renew and release make before they read the clock. */
  function CredentialRefusal(session: SessionIdentity, ownerId: string, acquisitionNonce: string,
                             leaseToken: string, clock: ClockReading): Error
  {
    if !session.Valid() then InvalidSession
    else if !ValidOwner(ownerId) then InvalidOwner
    else if !ValidSecret(acquisitionNonce) then InvalidAcquisitionNonce
    else if !ValidSecret(leaseToken) then InvalidLeaseToken
    else if clock.ClockFailed? then ClockFailure
    else NoError
  }

  function RenewRefusal(s: State, req: RenewRequest): Error {
    var mismatch := ValidateRequestSession(s, req.session);
    var credentials := ValidateCredentials(s, req.ownerId, req.acquisitionNonce, req.leaseToken);
    if mismatch != NoError then mismatch
    else if credentials != NoError then credentials
    else if s.lease.sessionInvalidationPending then LeaseSessionInvalidationPending
    else if s.lease.releasePending then LeaseReleasePending
    else if req.expectedLeaseRevision != s.leaseRevision then StaleLeaseRevision
    else NoError
  }

  function Renew(s: State, clock: ClockReading, req: RenewRequest): (State, LeaseResult) {
    var early := CredentialRefusal(req.session, req.ownerId, req.acquisitionNonce, req.leaseToken, clock);
    if early != NoError then (s, EarlyLeaseError(early))
    else if !DeadlineFits(clock.now, req.ttl) then (s, EarlyLeaseError(InvalidTtl))
    else
      var (s1, error) := Prepare(s, clock.now);
      if error != NoError then (s1, LeaseError(s1, error))
      else if RenewRefusal(s1, req) != NoError then (s1, LeaseError(s1, RenewRefusal(s1, req)))
      else
        var (s2, bumped) := BumpLeaseRevision(s1);
        if bumped != NoError then (s2, LeaseError(s2, bumped))
        else
          var deadline := clock.now + req.ttl;
          var s3 := s2.(lease := s2.lease.(expiresAt := deadline, expiryPending := false));
          (s3, LeaseResult(NoError, SnapshotOf(s3), s3.lease.token, deadline, false, false))
  }

  function ReleaseRefusal(s: State, req: ReleaseRequest): Error {
    var mismatch := ValidateRequestSession(s, req.session);
    var credentials := ValidateCredentials(s, req.ownerId, req.acquisitionNonce, req.leaseToken);
    if mismatch != NoError then mismatch
    else if credentials != NoError then credentials
    else if s.lease.sessionInvalidationPending then LeaseSessionInvalidationPending
    else if req.expectedLeaseRevision != s.leaseRevision then StaleLeaseRevision
    else NoError
  }

  function Release(s: State, clock: ClockReading, req: ReleaseRequest): (State, LeaseResult) {
    var early := CredentialRefusal(req.session, req.ownerId, req.acquisitionNonce, req.leaseToken, clock);
    if early != NoError then (s, EarlyLeaseError(early))
    else
      var (s1, error) := Prepare(s, clock.now);
      if error != NoError then (s1, LeaseError(s1, error))
      else if ReleaseRefusal(s1, req) != NoError then (s1, LeaseError(s1, ReleaseRefusal(s1, req)))
      else if s1.lease.releasePending
      then (s1, LeaseResult(NoError, SnapshotOf(s1), "", 0, false, true))
      else if Pinned(s1) then
        var (s2, bumped) := BumpLeaseRevision(s1);
        if bumped != NoError then (s2, LeaseError(s2, bumped))
        else
          var s3 := s2.(lease := s2.lease.(releasePending := true, expiryPending := false));
          (s3, LeaseResult(NoError, SnapshotOf(s3), "", 0, false, true))
      else
        var (s2, finalized) := FinalizeLease(s1, Released);
        (s2, LeaseError(s2, finalized))
  }

  function BeginEarlyRefusal(clock: ClockReading, req: BeginRequest): Error {
    if !req.session.Valid() then InvalidSession
    else if req.HasAnyCredentials() && !ValidOwner(req.ownerId) then InvalidOwner
    else if req.HasAnyCredentials() && !ValidSecret(req.acquisitionNonce) then InvalidAcquisitionNonce
    else if req.HasAnyCredentials() && !ValidSecret(req.leaseToken) then InvalidLeaseToken
    else if clock.ClockFailed? then ClockFailure
    else NoError
  }

  function BeginLeaseRefusal(s: State, req: BeginRequest): Error {
    if s.lease.active then
      var credentials := ValidateCredentials(s, req.ownerId, req.acquisitionNonce, req.leaseToken);
      if !req.HasAnyCredentials() then LeaseRequired
      else if credentials != NoError then credentials
      else if s.lease.sessionInvalidationPending then LeaseSessionInvalidationPending
      else if s.lease.releasePending then LeaseReleasePending
      else if s.lease.expiryPending then LeaseExpiryPending
      else NoError
    else if req.HasAnyCredentials() then ClassifyNonCurrentToken(s, req.leaseToken)
    else NoError
  }

  function BeginRefusal(s: State, req: BeginRequest): Error {
    var mismatch := ValidateRequestSession(s, req.session);
    var lease := BeginLeaseRefusal(s, req);
    if mismatch != NoError then mismatch
    else if lease != NoError then lease
    else if req.expectedLeaseRevision != s.leaseRevision then StaleLeaseRevision
    else if req.expectedMutationSeq != s.mutationSeq then StaleMutationSequence
    else if req.expectedEmergencyEpoch != s.emergencyEpoch then StaleEmergencyEpoch
    else if s.inFlight.active then MutationBusy
    else NoError
  }

  function BeginFailed(s: State, error: Error): (State, BeginResult) {
    (s, BeginResult(error, SnapshotOf(s), EMPTY_HANDLE))
  }

  function Begin(s: State, clock: ClockReading, req: BeginRequest): (State, BeginResult) {
    var early := BeginEarlyRefusal(clock, req);
    if early != NoError then (s, BeginResult(early, EMPTY_SNAPSHOT, EMPTY_HANDLE))
    else
      var (s1, error) := Prepare(s, clock.now);
      if error != NoError then BeginFailed(s1, error)
      else if BeginRefusal(s1, req) != NoError then BeginFailed(s1, BeginRefusal(s1, req))
      else if s1.nextPermitId == MAX_U64
      then BeginFailed(s1.(counterExhausted := true), CounterExhausted)
      else
        var id := s1.nextPermitId + 1;
        var s2 := s1.(nextPermitId := id,
                      inFlight := InFlightState(true, id,
                                                if s1.lease.active then s1.lease.incarnation else 0,
                                                req.session, s1.mutationSeq, s1.emergencyEpoch));
        (s2, BeginResult(NoError, SnapshotOf(s2), Handle(true, id, Open)))
  }

  function EmergencyInvalidate(s: State, clock: ClockReading): (State, OperationResult) {
    if clock.ClockFailed? then (s, OperationResult(ClockFailure, EMPTY_SNAPSHOT))
    else
      var (s1, error) := Prepare(s, clock.now);
      if error != NoError then (s1, OperationResult(error, SnapshotOf(s1)))
      else if s1.emergencyEpoch == MAX_U64
      then var s2 := s1.(counterExhausted := true); (s2, OperationResult(CounterExhausted, SnapshotOf(s2)))
      else var s2 := s1.(emergencyEpoch := s1.emergencyEpoch + 1); (s2, OperationResult(NoError, SnapshotOf(s2)))
  }

  function InstallSession(s: State, session: SessionIdentity): (State, Error)
    requires s.emergencyEpoch < MAX_U64
  {
    var s1 := s.(emergencyEpoch := s.emergencyEpoch + 1, session := session);
    if !s1.lease.active then (s1, NoError)
    else if Pinned(s1)
    then BumpLeaseRevision(s1.(lease := s1.lease.(sessionInvalidationPending := true,
                                                  releasePending := false, expiryPending := false)))
    else FinalizeLease(s1, SessionInvalidated)
  }

  function ReplaceSession(s: State, clock: ClockReading, session: SessionIdentity): (State, OperationResult) {
    if !session.Valid() then (s, OperationResult(InvalidSession, EMPTY_SNAPSHOT))
    else if clock.ClockFailed? then (s, OperationResult(ClockFailure, EMPTY_SNAPSHOT))
    else
      var (s1, error) := Prepare(s, clock.now);
      if error != NoError then (s1, OperationResult(error, SnapshotOf(s1)))
      else if session == s1.session then (s1, OperationResult(NoError, SnapshotOf(s1)))
      else if session.bridgeInstanceId == s1.session.bridgeInstanceId
              && session.generation <= s1.session.generation
      then (s1, OperationResult(StaleSessionGeneration, SnapshotOf(s1)))
      else if s1.emergencyEpoch == MAX_U64
      then var s2 := s1.(counterExhausted := true); (s2, OperationResult(CounterExhausted, SnapshotOf(s2)))
      else
        var (s2, installed) := InstallSession(s1, session);
        (s2, OperationResult(installed, SnapshotOf(s2)))
  }

  // Effects of the operations of a permit handle

  function CommitRefusal(s: State, observed: SessionIdentity): Error {
    if s.counterExhausted then CounterExhausted
    else if !observed.Valid() || observed != s.inFlight.session || s.session != s.inFlight.session
    then SessionChanged
    else if s.emergencyEpoch != s.inFlight.emergencyEpoch then EmergencyInvalidated
    else if s.inFlight.leaseIncarnation != 0
            && (!s.lease.active || s.lease.incarnation != s.inFlight.leaseIncarnation)
    then StaleLeaseToken
    else if s.mutationSeq != s.inFlight.mutationSeq then StaleMutationSequence
    else NoError
  }

  function Commit(s: State, handle: Handle, clock: ClockReading, observed: SessionIdentity)
    : (State, Handle, CommitResult)
  {
    if handle.localState == Committed
    then (s, handle, CommitResult(PermitAlreadyCommitted, EMPTY_SNAPSHOT, 0))
    else if !handle.Active() then (s, handle, CommitResult(PermitNotActive, EMPTY_SNAPSHOT, 0))
    else if clock.ClockFailed? || clock.now < s.lastObservedAt then
      var s1 := ClosePermit(s, handle.permitId, s.lastObservedAt);
      (s1, handle.(localState := Closed),
       CommitResult(if clock.ClockFailed? then ClockFailure else ClockRegression, SnapshotOf(s1), 0))
    else
      var s1 := s.(lastObservedAt := clock.now);
      if !s1.inFlight.active || s1.inFlight.permitId != handle.permitId
      then (s1, handle.(localState := Closed), CommitResult(PermitNotActive, SnapshotOf(s1), 0))
      else CommitInFlight(s1, handle, clock.now, observed)
  }

  function CommitInFlight(s: State, handle: Handle, now: Tick, observed: SessionIdentity)
    : (State, Handle, CommitResult)
  {
    var refusal := CommitRefusal(s, observed);
    var error := if refusal == NoError && s.mutationSeq == MAX_U64 then CounterExhausted else refusal;
    var s1 := if error == NoError then s.(mutationSeq := s.mutationSeq + 1)
              else if refusal == NoError then s.(counterExhausted := true)
              else s;
    var s2 := ClosePermit(s1, handle.permitId, now);
    (s2, handle.(localState := if error == NoError then Committed else Closed),
     CommitResult(error, SnapshotOf(s2), if error == NoError then s1.mutationSeq else 0))
  }

  function Abandon(s: State, handle: Handle, clock: ClockReading): (State, Handle) {
    if !handle.Active() then (s, handle)
    else
      var s1 := if clock.ClockFailed? || clock.now < s.lastObservedAt then s
                else s.(lastObservedAt := clock.now);
      (ClosePermit(s1, handle.permitId, s1.lastObservedAt), Handle(false, 0, Closed))
  }
}
