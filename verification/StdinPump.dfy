/** Standard input of a launched process: callers put byte strings into a bounded queue and one
    worker thread writes them to a pipe.  Every region under the input mutex and every call of
    WriteFile is one action; actions of callers and worker interleave freely.  The stop flag is an
    atomic that is read without the mutex, so an action carries what it saw, which may be stale. */
module StdinPump {
  import opened Options

  type Bytes = seq<Byte>

  /** Where the worker is, with its local variables. */
  datatype Phase =
    | Waiting
    | Writing(chunk: Bytes, offset: nat)
    | Settling(chunk: Bytes, writtenSuccessfully: bool)
    | Leaving(sawStop: bool)
    | PipeClosed(sawStop: bool)
    | Done

  /** `accepted`, `delivered` and `broken` are history: all bytes ever accepted, all bytes the pipe
      took, and whether the worker has given up on bytes. */
  datatype Pump = Pump(
    capacity: nat, queue: seq<Bytes>, queuedBytes: nat,
    closeRequested: bool, open: bool, workerError: bool, stopping: bool, phase: Phase,
    accepted: Bytes, delivered: Bytes, broken: bool)

  datatype WriteOutcome =
    | ExceedsCapacity | StillWaiting
    | Backpressure(queuedBytes: nat) | InputClosed(queuedBytes: nat) | WorkerFailed(queuedBytes: nat)
    | Accepted(acceptedBytes: nat, queuedBytes: nat)

  datatype Action =
    | Write(bytes: Bytes, sawFirst: bool, sawSecond: bool, timedOut: bool)
    | CloseInput
    | Stop
    | Take(saw: bool)
    | NoticeStop
    | PipeTakes(count: nat)
    | PipeFails(count: nat, aborted: bool, saw: bool)
    | Settle
    | ClosePipe
    | Finish(saw: bool)

  /** A stop flag once seen stays seen, and is seen only when it is set. */
  predicate Enabled(p: Pump, a: Action) {
    match a
    case Write(_, first, second, _) => (first ==> second) && (second ==> p.stopping)
    case CloseInput => true
    case Stop => true
    case Take(saw) => p.phase.Waiting? && (saw ==> p.stopping) && (saw || p.queue != [] || p.closeRequested)
    case NoticeStop => p.phase.Writing? && p.stopping
    case PipeTakes(count) => p.phase.Writing? && 0 < count <= |p.phase.chunk| - p.phase.offset
    case PipeFails(count, _, saw) =>
      p.phase.Writing? && count <= |p.phase.chunk| - p.phase.offset && (saw ==> p.stopping)
    case Settle => p.phase.Settling?
    case ClosePipe => p.phase.Leaving?
    case Finish(saw) => p.phase.PipeClosed? && (p.phase.sawStop ==> saw) && (saw ==> p.stopping)
  }

  function Outcome(p: Pump, bytes: Bytes, sawFirst: bool, sawSecond: bool, timedOut: bool): WriteOutcome {
    if |bytes| > p.capacity then ExceedsCapacity
    else
      var ready := sawFirst || !p.open || p.closeRequested || p.workerError
                   || p.queuedBytes <= p.capacity - |bytes|;
      if !ready then (if timedOut then Backpressure(p.queuedBytes) else StillWaiting)
      else if sawSecond || !p.open || p.closeRequested then InputClosed(p.queuedBytes)
      else if p.workerError then WorkerFailed(p.queuedBytes)
      else Accepted(|bytes|, p.queuedBytes + |bytes|)
  }

  function AfterWrite(p: Pump, bytes: Bytes): Pump {
    p.(queue := if bytes == [] then p.queue else p.queue + [bytes],
       queuedBytes := p.queuedBytes + |bytes|, accepted := p.accepted + bytes)
  }

  function AfterTake(p: Pump, saw: bool): Pump
    requires Enabled(p, Take(saw))
  {
    if saw || p.queue == [] then p.(phase := Leaving(saw))
    else p.(phase := Writing(p.queue[0], 0), queue := p.queue[1..])
  }

  function AfterPipeTakes(p: Pump, count: nat): Pump
    requires Enabled(p, PipeTakes(count))
  {
    var (chunk, next) := (p.phase.chunk, p.phase.offset + count);
    p.(delivered := p.delivered + chunk[p.phase.offset..next],
       phase := if next == |chunk| then Settling(chunk, true) else Writing(chunk, next))
  }

  /** A failed call may still have passed some bytes on. */
  function AfterPipeFails(p: Pump, count: nat, aborted: bool, saw: bool): Pump
    requires Enabled(p, PipeFails(count, aborted, saw))
  {
    p.(delivered := p.delivered + p.phase.chunk[p.phase.offset..p.phase.offset + count],
       workerError := p.workerError || !(aborted && saw),
       phase := Settling(p.phase.chunk, false), broken := true)
  }

  function AfterSettle(p: Pump): Pump
    requires p.phase.Settling?
  {
    var left := if |p.phase.chunk| > p.queuedBytes then 0 else p.queuedBytes - |p.phase.chunk|;
    if p.phase.writtenSuccessfully then p.(queuedBytes := left, phase := Waiting)
    else p.(queue := [], queuedBytes := 0, closeRequested := true, phase := Leaving(false))
  }

  function AfterFinish(p: Pump, saw: bool): Pump {
    var p' := p.(open := false, phase := Done);
    if saw then p'.(queue := [], queuedBytes := 0, broken := true) else p'
  }

  function Step(p: Pump, a: Action): Pump
    requires Enabled(p, a)
  {
    match a
    case Write(bytes, first, second, timedOut) =>
      if Outcome(p, bytes, first, second, timedOut).Accepted? then AfterWrite(p, bytes) else p
    case CloseInput => p.(closeRequested := true)
    case Stop => p.(stopping := true)
    case Take(saw) => AfterTake(p, saw)
    case NoticeStop => p.(phase := Settling(p.phase.chunk, false), broken := true)
    case PipeTakes(count) => AfterPipeTakes(p, count)
    case PipeFails(count, aborted, saw) => AfterPipeFails(p, count, aborted, saw)
    case Settle => AfterSettle(p)
    case ClosePipe => p.(phase := PipeClosed(p.phase.sawStop))
    case Finish(saw) => AfterFinish(p, saw)
  }

  /** An interactive pipe, or one that gets all its bytes at the start and is then closed. */
  function InitialPump(capacity: nat, initial: Option<Bytes>): Pump
    requires initial.Some? ==> |initial.value| <= capacity
  {
    var bytes := if initial.Some? then initial.value else [];
    Pump(capacity, if bytes == [] then [] else [bytes], |bytes|, initial.Some?, true, false, false, Waiting,
         bytes, [], false)
  }

  // The invariant

  function Flatten(queue: seq<Bytes>): Bytes {
    if queue == [] then [] else queue[0] + Flatten(queue[1..])
  }

  lemma {:induction false} FlattenAppends(queue: seq<Bytes>, bytes: Bytes)
    ensures Flatten(queue + [bytes]) == Flatten(queue) + bytes
  {
    if queue == [] {
      assert queue + [bytes] == [bytes] && [bytes][1..] == [];
    } else {
      assert (queue + [bytes])[1..] == queue[1..] + [bytes];
      FlattenAppends(queue[1..], bytes);
    }
  }

  /** The chunk that left the queue but still counts as queued. */
  function InHand(p: Pump): Bytes {
    if p.phase.Writing? || p.phase.Settling? then p.phase.chunk else []
  }

  /** The part of it that the pipe has not taken. */
  function Undelivered(p: Pump): Bytes {
    if p.phase.Writing? && p.phase.offset <= |p.phase.chunk| then p.phase.chunk[p.phase.offset..] else []
  }

  ghost predicate CountsInv(p: Pump) {
    && p.queuedBytes == |InHand(p)| + |Flatten(p.queue)|
    && p.queuedBytes <= p.capacity
    && (forall i | 0 <= i < |p.queue| :: p.queue[i] != [])
    && (p.phase.Writing? ==> p.phase.offset < |p.phase.chunk|)
  }

  ghost predicate OrderInv(p: Pump) {
    && (if p.broken then p.delivered <= p.accepted
        else p.accepted == p.delivered + Undelivered(p) + Flatten(p.queue))
    && (p.broken ==> p.stopping || p.workerError)
  }

  ghost predicate PhaseInv(p: Pump) {
    && (p.phase.Waiting? || p.phase.Writing? ==> !p.broken)
    && (p.phase.Settling? ==> (p.phase.writtenSuccessfully <==> !p.broken))
    && (p.phase.Leaving? || p.phase.PipeClosed? ==>
          if p.phase.sawStop then p.stopping else p.closeRequested && p.queue == [])
    && (p.open <==> !p.phase.Done?)
    && (p.phase.Done? ==> p.queue == [])
  }

  ghost predicate Inv(p: Pump) {
    CountsInv(p) && OrderInv(p) && PhaseInv(p)
  }

  lemma WriteKeepsInv(p: Pump, bytes: Bytes, first: bool, second: bool, timedOut: bool)
    requires Inv(p) && Enabled(p, Write(bytes, first, second, timedOut))
    ensures Inv(Step(p, Write(bytes, first, second, timedOut)))
  {
    FlattenAppends(p.queue, bytes);
    if !p.broken {
      assert p.delivered + Undelivered(p) + Flatten(p.queue) + bytes
          == p.delivered + Undelivered(p) + (Flatten(p.queue) + bytes);
    }
  }

  lemma TakeKeepsInv(p: Pump, saw: bool)
    requires Inv(p) && Enabled(p, Take(saw))
    ensures Inv(Step(p, Take(saw)))
  {
    if p.queue != [] && !p.broken {
      assert p.queue[0][0..] == p.queue[0];
      assert p.delivered + [] + (p.queue[0] + Flatten(p.queue[1..]))
          == p.delivered + p.queue[0] + Flatten(p.queue[1..]);
    }
  }

  /** Taking bytes moves them from the undelivered to the delivered and touches nothing else. */
  lemma TakenBytes(p: Pump, count: nat)
    requires Enabled(p, PipeTakes(count))
    ensures var p' := AfterPipeTakes(p, count);
            && p'.delivered == p.delivered + p.phase.chunk[p.phase.offset..p.phase.offset + count]
            && Undelivered(p') == p.phase.chunk[p.phase.offset + count..]
            && p' == p.(delivered := p'.delivered, phase := p'.phase)
  {}

  lemma PipeTakesKeepsOrder(p: Pump, count: nat)
    requires Inv(p) && Enabled(p, PipeTakes(count))
    ensures OrderInv(AfterPipeTakes(p, count))
  {
    PipePrefix(p, count);
    TakenBytes(p, count);
    hide AfterPipeTakes, Undelivered, Flatten, CountsInv;
  }

  lemma PipeTakesKeepsInv(p: Pump, count: nat)
    requires Inv(p) && Enabled(p, PipeTakes(count))
    ensures Inv(Step(p, PipeTakes(count)))
  {
    PipeTakesKeepsOrder(p, count);
    hide Flatten, OrderInv;
  }

  lemma PipeTakesStep(p: Pump, count: nat)
    requires Enabled(p, PipeTakes(count))
    ensures p.phase.Writing? && p.phase.offset + count <= |p.phase.chunk|
    ensures var next := p.phase.offset + count;
            Step(p, PipeTakes(count)) ==
            p.(delivered := p.delivered + p.phase.chunk[p.phase.offset..next],
               phase := if next == |p.phase.chunk| then Settling(p.phase.chunk, true) else Writing(p.phase.chunk, next))
  {
  }

  lemma PipeFailsKeepsInv(p: Pump, count: nat, aborted: bool, saw: bool)
    requires Inv(p) && Enabled(p, PipeFails(count, aborted, saw))
    ensures Inv(Step(p, PipeFails(count, aborted, saw)))
  {
    PipePrefix(p, count);
  }

  /** What the pipe takes next is what was accepted next. */
  lemma PipePrefix(p: Pump, count: nat)
    requires Inv(p) && p.phase.Writing? && count <= |p.phase.chunk| - p.phase.offset && !p.broken
    ensures var taken := p.phase.chunk[p.phase.offset..p.phase.offset + count];
            var rest := p.phase.chunk[p.phase.offset + count..];
            && p.accepted == p.delivered + taken + rest + Flatten(p.queue)
            && p.delivered + taken <= p.accepted
  {
    var taken := p.phase.chunk[p.phase.offset..p.phase.offset + count];
    var rest := p.phase.chunk[p.phase.offset + count..];
    hide Flatten;
    assert Undelivered(p) == taken + rest;
    assert p.delivered + (taken + rest) + Flatten(p.queue) == p.delivered + taken + rest + Flatten(p.queue);
  }

  lemma SettleKeepsInv(p: Pump)
    requires Inv(p) && p.phase.Settling?
    ensures Inv(AfterSettle(p))
    ensures |p.phase.chunk| <= p.queuedBytes
  {}

  lemma StepKeepsInv(p: Pump, a: Action)
    requires Inv(p) && Enabled(p, a)
    ensures Inv(Step(p, a))
  {
    match a
    case Write(bytes, first, second, timedOut) => WriteKeepsInv(p, bytes, first, second, timedOut);
    case Take(saw) => TakeKeepsInv(p, saw);
    case PipeTakes(count) => PipeTakesKeepsInv(p, count);
    case PipeFails(count, aborted, saw) => PipeFailsKeepsInv(p, count, aborted, saw);
    case Settle => SettleKeepsInv(p);
    case NoticeStop => PipePrefix(p, 0);
    case Finish(saw) =>
    case _ =>
  }

  lemma InitialInv(capacity: nat, initial: Option<Bytes>)
    requires initial.Some? ==> |initial.value| <= capacity
    ensures Inv(InitialPump(capacity, initial))
  {
    var p := InitialPump(capacity, initial);
    if p.queue != [] {
      assert Flatten(p.queue) == p.queue[0] + Flatten([]);
    }
  }

  // Runs

  ghost predicate IsRun(pumps: seq<Pump>, actions: seq<Action>) {
    && |pumps| == |actions| + 1
    && forall i | 0 <= i < |actions| :: Enabled(pumps[i], actions[i]) && pumps[i + 1] == Step(pumps[i], actions[i])
  }

  ghost predicate IsHistory(pumps: seq<Pump>, actions: seq<Action>, capacity: nat, initial: Option<Bytes>) {
    && IsRun(pumps, actions)
    && (initial.Some? ==> |initial.value| <= capacity)
    && pumps[0] == InitialPump(capacity, initial)
  }

  /** Main result: under every interleaving the counter equals the bytes in hand and in the queue,
      never exceeds the capacity, and the pipe has got a prefix of the accepted bytes in order. */
  lemma {:induction false} HistoryKeepsInv(pumps: seq<Pump>, actions: seq<Action>, capacity: nat,
                                           initial: Option<Bytes>, n: nat)
    requires IsHistory(pumps, actions, capacity, initial) && n < |pumps|
    ensures Inv(pumps[n]) && pumps[n].capacity == capacity
    ensures pumps[n].queuedBytes == |InHand(pumps[n])| + |Flatten(pumps[n].queue)| <= capacity
    ensures pumps[n].delivered <= pumps[n].accepted
  {
    if n == 0 {
      InitialInv(capacity, initial);
    } else {
      HistoryKeepsInv(pumps, actions, capacity, initial, n - 1);
      StepKeepsInv(pumps[n - 1], actions[n - 1]);
      StepKeepsCapacity(pumps[n - 1], actions[n - 1]);
    }
    hide Step;
    DeliveredIsPrefix(pumps[n]);
  }

  lemma StepKeepsCapacity(p: Pump, a: Action)
    requires Enabled(p, a)
    ensures Step(p, a).capacity == p.capacity
  {}

  lemma DeliveredIsPrefix(p: Pump)
    requires Inv(p)
    ensures p.delivered <= p.accepted
  {
    if !p.broken {
      assert p.delivered + Undelivered(p) + Flatten(p.queue) == p.delivered + (Undelivered(p) + Flatten(p.queue));
    }
  }

  /** Main result: the subtraction of the settled chunk never needs its clamp. */
  lemma ClampIsNeverUsed(pumps: seq<Pump>, actions: seq<Action>, capacity: nat, initial: Option<Bytes>, n: nat)
    requires IsHistory(pumps, actions, capacity, initial) && n < |pumps| && pumps[n].phase.Settling?
    ensures |pumps[n].phase.chunk| <= pumps[n].queuedBytes
  {
    HistoryKeepsInv(pumps, actions, capacity, initial, n);
  }

  // Closing

  /** Nothing is accepted once a close was requested, and a request is never withdrawn. */
  lemma ClosedStepAcceptsNothing(p: Pump, a: Action)
    requires Enabled(p, a) && p.closeRequested
    ensures Step(p, a).closeRequested && Step(p, a).accepted == p.accepted
  {}

  lemma {:induction false} ClosedAcceptsNothing(pumps: seq<Pump>, actions: seq<Action>, i: nat, j: nat)
    requires IsRun(pumps, actions) && i <= j < |pumps| && pumps[i].closeRequested
    ensures pumps[j].closeRequested && pumps[j].accepted == pumps[i].accepted
  {
    if i < j {
      ClosedAcceptsNothing(pumps, actions, i, j - 1);
      ClosedStepAcceptsNothing(pumps[j - 1], actions[j - 1]);
    }
  }

  /** Main result: without failure or stop, the pipe is closed only after a close was requested and
      after every byte accepted before that request was written to it. */
  lemma PipeClosesAfterEverything(pumps: seq<Pump>, actions: seq<Action>, capacity: nat, initial: Option<Bytes>,
                                  requested: nat, n: nat)
    requires IsHistory(pumps, actions, capacity, initial) && requested <= n < |pumps|
    requires pumps[requested].closeRequested
    requires pumps[n].phase.PipeClosed? || pumps[n].phase.Done?
    requires !pumps[n].stopping && !pumps[n].workerError
    ensures pumps[n].delivered == pumps[requested].accepted
  {
    HistoryKeepsInv(pumps, actions, capacity, initial, n);
    ClosedAcceptsNothing(pumps, actions, requested, n);
    var p := pumps[n];
    hide Step;
    assert !p.broken;
    assert p.delivered + [] + [] == p.delivered;
  }

  lemma UnrequestedPipeStaysOpen(pumps: seq<Pump>, actions: seq<Action>, capacity: nat, initial: Option<Bytes>, n: nat)
    requires IsHistory(pumps, actions, capacity, initial) && n < |pumps|
    requires pumps[n].phase.Leaving? || pumps[n].phase.PipeClosed?
    ensures pumps[n].closeRequested || pumps[n].stopping
  {
    HistoryKeepsInv(pumps, actions, capacity, initial, n);
  }

  // Progress

  predicate OfWorker(a: Action) {
    !a.Write? && !a.CloseInput? && !a.Stop?
  }

  function Rank(phase: Phase): nat {
    match phase
    case Done => 0
    case PipeClosed(_) => 1
    case Leaving(_) => 2
    case Waiting => 3
    case Settling(_, _) => 4
    case Writing(_, _) => 5
  }

  /** What the worker still has to do. */
  function Work(p: Pump): nat {
    20 * |Flatten(p.queue)| + 10 * |Undelivered(p)| + Rank(p.phase)
  }

  /** Main result: every action of the worker leaves less work, so it does at most `Work` actions
      between two actions of callers. */
  lemma WorkerMakesProgress(p: Pump, a: Action)
    requires Inv(p) && Enabled(p, a) && OfWorker(a)
    ensures Work(Step(p, a)) < Work(p)
  {
    if a.Take? && p.queue != [] {
      assert p.queue[0] != [];
      assert p.queue[0][0..] == p.queue[0];
    }
  }

  /** The worker only ever waits for input: in every other situation it can act. */
  lemma WorkerWaitsOnlyForInput(p: Pump)
    requires Inv(p) && !p.phase.Done?
    ensures (exists a :: OfWorker(a) && Enabled(p, a)) <==>
              !p.phase.Waiting? || p.stopping || p.closeRequested || p.queue != []
  {
    var a := match p.phase
      case Waiting => Take(p.stopping)
      case Writing(_, _) => PipeTakes(1)
      case Settling(_, _) => Settle
      case Leaving(_) => ClosePipe
      case PipeClosed(saw) => Finish(saw)
      case Done => Stop;
    if !p.phase.Waiting? || p.stopping || p.closeRequested || p.queue != [] {
      assert OfWorker(a) && Enabled(p, a);
    }
  }

  /** A write is refused for lack of space only if it does not fit into the space that is left. */
  lemma WriteIsAcceptedExactly(p: Pump, bytes: Bytes, first: bool, second: bool, timedOut: bool)
    requires Inv(p) && Enabled(p, Write(bytes, first, second, timedOut))
    ensures var outcome := Outcome(p, bytes, first, second, timedOut);
            && (outcome.Accepted? <==>
                  !second && p.open && !p.closeRequested && !p.workerError && p.queuedBytes + |bytes| <= p.capacity)
            && (outcome.Backpressure? ==> p.queuedBytes + |bytes| > p.capacity && timedOut)
            && (outcome.Accepted? ==> Step(p, Write(bytes, first, second, timedOut)).accepted == p.accepted + bytes)
  {}

  // The object

  class IoState {
    const inputCapacity: nat
    var inputQueue: seq<Bytes>
    var inputQueuedBytes: nat
    var inputCloseRequested: bool
    var inputOpen: bool
    var stdinWorkerError: bool
    var stopping: bool
    var worker: Phase
    ghost var accepted: Bytes
    ghost var delivered: Bytes
    ghost var broken: bool

    ghost function View(): Pump
      reads this
    {
      Pump(inputCapacity, inputQueue, inputQueuedBytes, inputCloseRequested, inputOpen, stdinWorkerError,
           stopping, worker, accepted, delivered, broken)
    }

    ghost predicate Valid()
      reads this
    {
      Inv(View())
    }

    /** `initialBytes` is given in bytes mode, which checked them against the capacity. */
    constructor (capacity: nat, initialBytes: Option<Bytes>)
      requires initialBytes.Some? ==> |initialBytes.value| <= capacity
      ensures View() == InitialPump(capacity, initialBytes) && Valid()
    {
      inputCapacity := capacity;
      inputQueue, inputQueuedBytes, inputCloseRequested := [], 0, false;
      inputOpen, stdinWorkerError, stopping, worker := true, false, false, Waiting;
      accepted, delivered, broken := [], [], false;
      if initialBytes.Some? {
        if initialBytes.value != [] {
          inputQueue := [initialBytes.value];
          inputQueuedBytes := |initialBytes.value|;
          accepted := initialBytes.value;
        }
        inputCloseRequested := true;
      }
      new;
      InitialInv(capacity, initialBytes);
    }

    method WriteInput(bytes: Bytes, sawFirst: bool, sawSecond: bool, timedOut: bool) returns (outcome: WriteOutcome)
      requires Valid() && Enabled(View(), Write(bytes, sawFirst, sawSecond, timedOut))
      modifies this
      ensures outcome == Outcome(old(View()), bytes, sawFirst, sawSecond, timedOut)
      ensures View() == Step(old(View()), Write(bytes, sawFirst, sawSecond, timedOut)) && Valid()
    {
      WriteKeepsInv(View(), bytes, sawFirst, sawSecond, timedOut);
      var size := |bytes|;
      if size > inputCapacity {
        return ExceedsCapacity;
      }
      var hasSpace := sawFirst || !inputOpen || inputCloseRequested || stdinWorkerError
                      || inputQueuedBytes <= inputCapacity - size;
      if !hasSpace {
        return if timedOut then Backpressure(inputQueuedBytes) else StillWaiting;
      }
      if sawSecond || !inputOpen || inputCloseRequested {
        return InputClosed(inputQueuedBytes);
      }
      if stdinWorkerError {
        return WorkerFailed(inputQueuedBytes);
      }
      accepted := accepted + bytes;
      if size != 0 {
        inputQueue := inputQueue + [bytes];
        inputQueuedBytes := inputQueuedBytes + size;
      }
      outcome := Accepted(size, inputQueuedBytes);
    }

    method RequestClose()
      requires Valid()
      modifies this
      ensures View() == Step(old(View()), CloseInput) && Valid()
    {
      inputCloseRequested := true;
    }

    method RequestStop()
      requires Valid()
      modifies this
      ensures View() == Step(old(View()), Stop) && Valid()
    {
      stopping := true;
    }

    /** The first locked region of the loop, once its wait is over. */
    method TakeChunk(saw: bool)
      requires Valid() && Enabled(View(), Take(saw))
      modifies this
      ensures View() == Step(old(View()), Take(saw)) && Valid()
    {
      TakeKeepsInv(View(), saw);
      if saw {
        worker := Leaving(true);
        return;
      }
      if inputQueue == [] {
        worker := Leaving(false);
        return;
      }
      worker := Writing(inputQueue[0], 0);
      inputQueue := inputQueue[1..];
    }

    /** The test of the stop flag before a write, when it is seen to be set. */
    method StopWriting()
      requires Valid() && Enabled(View(), NoticeStop)
      modifies this
      ensures View() == Step(old(View()), NoticeStop) && Valid()
    {
      StepKeepsInv(View(), NoticeStop);
      worker := Settling(worker.chunk, false);
      broken := true;
    }

    method WriteSome(count: nat)
      requires Valid() && Enabled(View(), PipeTakes(count))
      modifies this
      ensures View() == Step(old(View()), PipeTakes(count)) && Valid()
    {
      ghost var before := View();
      PipeTakesKeepsInv(before, count);
      PipeTakesStep(before, count);
      hide *;
      Advance(count);
    }

    /** What is left of the chunk after `count` bytes went out. */
    method Advance(count: nat)
      requires worker.Writing? && worker.offset + count <= |worker.chunk|
      modifies this`delivered, this`worker
      ensures delivered == old(delivered) + old(worker.chunk)[old(worker.offset)..old(worker.offset) + count]
      ensures var next := old(worker.offset) + count;
              worker == if next == |old(worker.chunk)| then Settling(old(worker.chunk), true)
                        else Writing(old(worker.chunk), next)
    {
      var chunk, offset := worker.chunk, worker.offset;
      delivered := delivered + chunk[offset..offset + count];
      offset := offset + count;
      if offset < |chunk| {
        worker := Writing(chunk, offset);
      } else {
        worker := Settling(chunk, true);
      }
    }

    /** A call of WriteFile that fails or writes nothing; `count` bytes may have gone out anyway. */
    method FailWrite(count: nat, aborted: bool, saw: bool)
      requires Valid() && Enabled(View(), PipeFails(count, aborted, saw))
      modifies this
      ensures View() == Step(old(View()), PipeFails(count, aborted, saw)) && Valid()
    {
      PipeFailsKeepsInv(View(), count, aborted, saw);
      delivered := delivered + worker.chunk[worker.offset..worker.offset + count];
      if !(aborted && saw) {
        stdinWorkerError := true;
      }
      worker := Settling(worker.chunk, false);
      broken := true;
    }

    /** The locked region after a chunk. */
    method SettleChunk()
      requires Valid() && Enabled(View(), Settle)
      modifies this
      ensures View() == Step(old(View()), Settle) && Valid()
    {
      SettleKeepsInv(View());
      var left: int := if |worker.chunk| > inputQueuedBytes then 0 else inputQueuedBytes - |worker.chunk|;
      inputQueuedBytes := left;
      if !worker.writtenSuccessfully {
        inputQueue := [];
        inputQueuedBytes := 0;
        inputCloseRequested := true;
        worker := Leaving(false);
      } else {
        worker := Waiting;
      }
    }

    method CloseParentHandle()
      requires Valid() && Enabled(View(), ClosePipe)
      modifies this
      ensures View() == Step(old(View()), ClosePipe) && Valid()
    {
      worker := PipeClosed(worker.sawStop);
    }

    /** The last locked region of the loop. */
    method FinishLoop(saw: bool)
      requires Valid() && Enabled(View(), Finish(saw))
      modifies this
      ensures View() == Step(old(View()), Finish(saw)) && Valid()
    {
      StepKeepsInv(View(), Finish(saw));
      inputOpen := false;
      if saw {
        inputQueue := [];
        inputQueuedBytes := 0;
        broken := true;
      }
      worker := Done;
    }
  }
}
