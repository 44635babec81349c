/** The request dispatcher's admission queue: first come first served, bounded, with tickets from a
    64-bit counter that wraps around and skips zero and live tickets. */
module AdmissionQueue {
  import opened Options
  import opened Sequences

  datatype Queue = Queue(maxRunning: U64, maxAdmitted: U64, queued: seq<U64>, running: set<U64>)

  ghost predicate Inv(q: Queue) {
    && 1 <= q.maxRunning <= q.maxAdmitted
    && |q.running| <= q.maxRunning
    && |q.queued| + |q.running| <= q.maxAdmitted
    && Distinct(q.queued)
    && (forall i | 0 <= i < |q.queued| :: q.queued[i] !in q.running && q.queued[i] != 0)
    && 0 !in q.running
  }

  predicate Live(q: Queue, ticket: U64) {
    ticket in q.running || ticket in q.queued
  }

  predicate Full(q: Queue) {
    |q.queued| + |q.running| >= q.maxAdmitted
  }

  predicate CanStart(q: Queue, ticket: U64) {
    |q.running| < q.maxRunning && q.queued != [] && q.queued[0] == ticket
  }

  function Without(tickets: seq<U64>, i: nat): seq<U64>
    requires i < |tickets|
  {
    tickets[..i] + tickets[i + 1..]
  }

  // Steps that change the queue

  datatype Operation = Admit(ticket: U64) | Start(ticket: U64) | Cancel(ticket: U64) | Finish(ticket: U64)

  ghost predicate LeavesLine(q: Queue, ticket: U64, q': Queue) {
    exists i | 0 <= i < |q.queued| :: q.queued[i] == ticket && q' == q.(queued := Without(q.queued, i))
  }

  ghost predicate Next(q: Queue, op: Operation, q': Queue) {
    && (op.Admit? ==>
          !Full(q) && op.ticket != 0 && !Live(q, op.ticket) && q' == q.(queued := q.queued + [op.ticket]))
    && (op.Start? ==>
          CanStart(q, op.ticket) && q' == q.(queued := q.queued[1..], running := q.running + {op.ticket}))
    && (op.Cancel? ==>
          if op.ticket in q.queued then LeavesLine(q, op.ticket, q')
          else op.ticket in q.running && q' == q.(running := q.running - {op.ticket}))
    && (op.Finish? ==> op.ticket in q.running && q' == q.(running := q.running - {op.ticket}))
  }

  lemma NextKeepsInv(q: Queue, op: Operation, q': Queue)
    requires Inv(q) && Next(q, op, q')
    ensures Inv(q')
  {
    if op.Start? {
      assert q.queued[0] in q.queued;
    }
  }

  /** While a slot is free and somebody waits, exactly the first in line can start. */
  lemma ExactlyOneCanStart(q: Queue)
    requires Inv(q)
    ensures (exists t: U64 :: CanStart(q, t)) <==> |q.running| < q.maxRunning && q.queued != []
    ensures forall t: U64, u: U64 | CanStart(q, t) && CanStart(q, u) :: t == u
  {
    if q.queued != [] && |q.running| < q.maxRunning {
      assert CanStart(q, q.queued[0]);
    }
  }

  ghost predicate IsRun(queues: seq<Queue>, ops: seq<Operation>) {
    && |queues| == |ops| + 1
    && forall i | 0 <= i < |ops| :: Next(queues[i], ops[i], queues[i + 1])
  }

  // First come, first served

  function Admission(op: Operation): seq<U64> {
    if op.Admit? then [op.ticket] else []
  }

  function Beginning(op: Operation): seq<U64> {
    if op.Start? then [op.ticket] else []
  }

  function Admissions(ops: seq<Operation>): seq<U64> {
    if ops == [] then [] else Admissions(ops[..|ops| - 1]) + Admission(ops[|ops| - 1])
  }

  function Starts(ops: seq<Operation>): seq<U64> {
    if ops == [] then [] else Starts(ops[..|ops| - 1]) + Beginning(ops[|ops| - 1])
  }

  /** `a` is `b` with some places left out. */
  ghost predicate Subsequence(a: seq<U64>, b: seq<U64>) {
    a == [] ||
    (b != [] &&
     var (a', b') := (a[..|a| - 1], b[..|b| - 1]);
     (a[|a| - 1] == b[|b| - 1] && Subsequence(a', b')) || Subsequence(a, b'))
  }

  lemma SubsequenceAppends(a: seq<U64>, b: seq<U64>, t: U64)
    requires Subsequence(a, b)
    ensures Subsequence(a + [t], b + [t])
  {
    assert (a + [t])[..|a|] == a && (b + [t])[..|b|] == b;
  }

  lemma WithoutBefore(a: seq<U64>, t: U64, i: nat)
    requires i <= |a|
    ensures Without(a + [t], i) == if i < |a| then Without(a, i) + [t] else a
  {
  }

  lemma {:induction false} SubsequenceLoses(a: seq<U64>, b: seq<U64>, i: nat)
    requires Subsequence(a, b) && i < |a|
    ensures Subsequence(Without(a, i), b)
    decreases |b|
  {
    hide Without;
    var a', b' := a[..|a| - 1], b[..|b| - 1];
    if a[|a| - 1] == b[|b| - 1] && Subsequence(a', b') {
      WithoutBefore(a', a[|a| - 1], i);
      SplitLast(a);
      SplitLast(b);
      if i < |a'| {
        SubsequenceLoses(a', b', i);
        SubsequenceAppends(Without(a', i), b', a[|a| - 1]);
      }
    } else {
      SubsequenceLoses(a, b', i);
    }
  }

  lemma CancelKeepsOrder(q: Queue, ticket: U64, q': Queue, started: seq<U64>, admitted: seq<U64>)
    requires LeavesLine(q, ticket, q') && Subsequence(started + q.queued, admitted)
    ensures Subsequence(started + q'.queued, admitted)
  {
    var i :| 0 <= i < |q.queued| && q.queued[i] == ticket && q' == q.(queued := Without(q.queued, i));
    hide *;
    SubsequenceLoses(started + q.queued, admitted, |started| + i);
    WithoutBehind(started, q.queued, i);
  }

  lemma WithoutBehind(a: seq<U64>, b: seq<U64>, i: nat)
    requires i < |b|
    ensures Without(a + b, |a| + i) == a + Without(b, i)
  {
    assert (a + b)[..|a| + i] == a + b[..i];
    assert (a + b)[|a| + i + 1..] == b[i + 1..];
  }

  lemma AdmitKeepsOrder(queued: seq<U64>, ticket: U64, started: seq<U64>, admitted: seq<U64>)
    requires Subsequence(started + queued, admitted)
    ensures Subsequence(started + (queued + [ticket]), admitted + [ticket])
  {
    SubsequenceAppends(started + queued, admitted, ticket);
    hide Subsequence;
    assert started + (queued + [ticket]) == started + queued + [ticket];
  }

  lemma StepKeepsOrder(q: Queue, op: Operation, q': Queue, started: seq<U64>, admitted: seq<U64>)
    requires Next(q, op, q') && Subsequence(started + q.queued, admitted)
    ensures Subsequence(started + Beginning(op) + q'.queued, admitted + Admission(op))
  {
    hide Subsequence, LeavesLine;
    assert admitted + [] == admitted && started + [] == started;
    if op.Admit? {
      AdmitKeepsOrder(q.queued, op.ticket, started, admitted);
    } else if op.Start? {
      assert started + [op.ticket] + q.queued[1..] == started + q.queued;
    } else if op.Cancel? && op.ticket in q.queued {
      CancelKeepsOrder(q, op.ticket, q', started, admitted);
    }
  }

  /** Main result: over every run that begins with an empty queue, the tickets started so far and
      then those still waiting are, in this order, a subsequence of the admissions. */
  lemma {:induction false} StartsFollowAdmissions(queues: seq<Queue>, ops: seq<Operation>)
    requires IsRun(queues, ops) && queues[0].queued == []
    ensures Subsequence(Starts(ops) + queues[|ops|].queued, Admissions(ops))
  {
    if ops == [] {
      assert Starts(ops) + queues[0].queued == [];
    } else {
      hide Subsequence;
      var n := |ops| - 1;
      StartsFollowAdmissions(queues[..n + 1], ops[..n]);
      assert Next(queues[n], ops[n], queues[n + 1]);
      hide Next;
      StepKeepsOrder(queues[n], ops[n], queues[n + 1], Starts(ops[..n]), Admissions(ops[..n]));
    }
  }

  lemma {:induction false} RunKeepsInv(queues: seq<Queue>, ops: seq<Operation>)
    requires IsRun(queues, ops) && Inv(queues[0])
    ensures Inv(queues[|ops|])
  {
    if ops != [] {
      var n := |ops| - 1;
      RunKeepsInv(queues[..n + 1], ops[..n]);
      NextKeepsInv(queues[n], ops[n], queues[n + 1]);
    }
  }

  /** Main result: bounded waiting.  A ticket with `place` others before it that is neither started
      nor cancelled is still waiting, and at most `place` tickets were started meanwhile. */
  lemma {:induction false} BoundedWaiting(queues: seq<Queue>, ops: seq<Operation>, place: nat) returns (now: nat)
    requires IsRun(queues, ops) && place < |queues[0].queued|
    requires forall i | 0 <= i < |ops| :: ops[i] != Start(queues[0].queued[place]) && ops[i] != Cancel(queues[0].queued[place])
    ensures now < |queues[|ops|].queued| && queues[|ops|].queued[now] == queues[0].queued[place]
    ensures |Starts(ops)| + now <= place
  {
    now := place;
    if ops != [] {
      var n := |ops| - 1;
      now := BoundedWaiting(queues[..n + 1], ops[..n], place);
      assert Next(queues[n], ops[n], queues[n + 1]);
      hide Next, Inv;
      now := StepKeepsPlace(queues[n], ops[n], queues[n + 1], now);
    }
  }

  lemma StepKeepsPlace(q: Queue, op: Operation, q': Queue, place: nat) returns (now: nat)
    requires Next(q, op, q') && place < |q.queued|
    requires op != Start(q.queued[place]) && op != Cancel(q.queued[place])
    ensures now < |q'.queued| && q'.queued[now] == q.queued[place]
    ensures now + |Beginning(op)| <= place
  {
    now := place;
    if op.Start? {
      now := place - 1;
    } else if op.Cancel? && op.ticket in q.queued {
      var i :| 0 <= i < |q.queued| && q.queued[i] == op.ticket && q' == q.(queued := Without(q.queued, i));
      now := if i < place then place - 1 else place;
      hide *;
      OthersStay(q.queued, i, place);
    }
  }

  lemma OthersStay(tickets: seq<U64>, i: nat, place: nat)
    requires i < |tickets| && place < |tickets| && i != place
    ensures var now := if i < place then place - 1 else place;
            now < |Without(tickets, i)| && Without(tickets, i)[now] == tickets[place]
  {
  }

  // Fresh tickets

  /** The candidate after `k` steps of the counter from `start`: round the non-zero tickets. */
  function Candidate(start: U64, k: nat): U64
    requires start != 0 && k <= MAX_U64
  {
    if start + k <= MAX_U64 then start + k else start + k - MAX_U64
  }

  lemma CandidatesDiffer(start: U64, j: nat, k: nat)
    requires start != 0 && j < k < MAX_U64
    ensures Candidate(start, j) != Candidate(start, k)
  {}

  /** `ticket` is the first candidate from `start` that is not live, and `next` comes after it. */
  ghost predicate FirstFree(q: Queue, start: U64, ticket: U64, next: U64)
    requires start != 0
  {
    exists k: nat | k < MAX_U64 :: FreeAt(q, start, k) && ticket == Candidate(start, k) && next == Candidate(start, k + 1)
  }

  ghost predicate FreeAt(q: Queue, start: U64, k: nat)
    requires start != 0 && k < MAX_U64
  {
    !Live(q, Candidate(start, k)) && forall j: nat | j < k :: Live(q, Candidate(start, j))
  }

  ghost function FirstCandidates(start: U64, k: nat): set<U64>
    requires start != 0 && k <= MAX_U64
  {
    if k == 0 then {} else FirstCandidates(start, k - 1) + {Candidate(start, k - 1)}
  }

  lemma {:induction false} FirstCandidatesAre(start: U64, k: nat, ticket: U64)
    requires start != 0 && k <= MAX_U64
    ensures ticket in FirstCandidates(start, k) <==> exists j: nat :: j < k && ticket == Candidate(start, j)
  {
    if k > 0 {
      FirstCandidatesAre(start, k - 1, ticket);
    }
  }

  lemma {:induction false} FirstCandidatesCount(start: U64, k: nat)
    requires start != 0 && k <= MAX_U64
    ensures |FirstCandidates(start, k)| == k
  {
    if k > 0 {
      FirstCandidatesCount(start, k - 1);
      var last := Candidate(start, k - 1);
      FirstCandidatesAre(start, k - 1, last);
      forall j: nat | j < k - 1 ensures Candidate(start, j) != last {
        CandidatesDiffer(start, j, k - 1);
      }
    }
  }

  ghost function Members(tickets: seq<U64>): set<U64> {
    set x | x in tickets
  }

  lemma {:induction false} FewMembers(tickets: seq<U64>)
    ensures |Members(tickets)| <= |tickets|
  {
    if tickets != [] {
      FewMembers(tickets[1..]);
      assert Members(tickets) == Members(tickets[1..]) + {tickets[0]};
    }
  }

  lemma SubsetIsSmaller(a: set<U64>, b: set<U64>)
    requires a <= b
    ensures |a| <= |b|
  {
    assert |b| == |a| + |b - a| by {
      assert b == a + (b - a);
    }
  }

  /** The pigeonhole: live candidates are all different, so there are no more than live tickets. */
  lemma LiveCandidatesAreFew(q: Queue, start: U64, k: nat)
    requires start != 0 && k <= MAX_U64
    requires forall j: nat | j < k :: Live(q, Candidate(start, j))
    ensures k <= |q.queued| + |q.running|
  {
    var live := q.running + Members(q.queued);
    forall ticket | ticket in FirstCandidates(start, k) ensures ticket in live {
      FirstCandidatesAre(start, k, ticket);
    }
    FirstCandidatesCount(start, k);
    SubsetIsSmaller(FirstCandidates(start, k), live);
    FewMembers(q.queued);
  }

  datatype StartDecision = Started | Queued | UnknownTicket

  class FairAdmissionQueue {
    const maxRunning: U64
    const maxAdmitted: U64
    var nextTicket: U64
    var queued: seq<U64>
    var running: set<U64>

    function View(): Queue
      reads this
    {
      Queue(maxRunning, maxAdmitted, queued, running)
    }

    ghost predicate Valid()
      reads this
    {
      Inv(View()) && nextTicket != 0
    }

    constructor (requestedRunning: U64, requestedAdmitted: U64)
      ensures Valid() && queued == [] && running == {} && nextTicket == 1
      ensures maxRunning == if requestedRunning < 1 then 1 else requestedRunning
      ensures maxAdmitted == if requestedAdmitted < maxRunning then maxRunning else requestedAdmitted
    {
      maxRunning := if requestedRunning < 1 then 1 else requestedRunning;
      maxAdmitted := if requestedAdmitted < (if requestedRunning < 1 then 1 else requestedRunning)
                     then (if requestedRunning < 1 then 1 else requestedRunning) else requestedAdmitted;
      nextTicket, queued, running := 1, [], {};
    }

    /** Main result: below capacity a ticket is always found, and it is the first candidate of the
        wrapping counter that is not live; the exit of the loop without a ticket is dead. */
    method TryAdmit() returns (ticket: Option<U64>)
      requires Valid()
      modifies this
      ensures Valid()
      ensures ticket.None? <==> Full(old(View()))
      ensures ticket.None? ==> unchanged(this)
      ensures ticket.Some? ==> Next(old(View()), Admit(ticket.value), View())
      ensures ticket.Some? ==> FirstFree(old(View()), old(nextTicket), ticket.value, nextTicket)
    {
      if |queued| + |running| >= maxAdmitted {
        return None;
      }
      ghost var q, start := View(), nextTicket;
      ticket := None;
      var attempts := 0;
      while attempts <= maxAdmitted
        invariant View() == q && 0 <= attempts < MAX_U64 && !Full(q)
        invariant nextTicket == Candidate(start, attempts)
        invariant forall j: nat | j < attempts :: Live(q, Candidate(start, j))
        invariant attempts <= |q.queued| + |q.running|
        decreases MAX_U64 - attempts
      {
        var candidate := nextTicket;
        nextTicket := if nextTicket == MAX_U64 then 0 else nextTicket + 1;
        if nextTicket == 0 {
          nextTicket := 1;
        }
        assert nextTicket == Candidate(start, attempts + 1);
        if candidate != 0 && candidate !in running && candidate !in queued {
          queued := queued + [candidate];
          assert FreeAt(q, start, attempts);
          NextKeepsInv(q, Admit(candidate), View());
          return Some(candidate);
        }
        attempts := attempts + 1;
        LiveCandidatesAreFew(q, start, attempts);
      }
      assert false;
    }

    method TryStart(ticket: U64) returns (decision: StartDecision)
      requires Valid()
      modifies this
      ensures Valid() && nextTicket == old(nextTicket)
      ensures decision.Started? <==> CanStart(old(View()), ticket)
      ensures if decision.Started? then Next(old(View()), Start(ticket), View()) else View() == old(View())
      ensures !decision.Started? ==> (decision.Queued? <==> ticket in queued)
    {
      if |running| < maxRunning && queued != [] && queued[0] == ticket {
        ghost var q := View();
        queued := queued[1..];
        running := running + {ticket};
        NextKeepsInv(q, Start(ticket), View());
        return Started;
      }
      if ticket in queued {
        return Queued;
      }
      return UnknownTicket;
    }

    method CancelTicket(ticket: U64) returns (cancelled: bool)
      requires Valid()
      modifies this
      ensures Valid() && nextTicket == old(nextTicket)
      ensures cancelled <==> Live(old(View()), ticket)
      ensures if cancelled then Next(old(View()), Cancel(ticket), View()) else View() == old(View())
      ensures !Live(View(), ticket)
    {
      ghost var q := View();
      var index := 0;
      while index < |queued| && queued[index] != ticket
        invariant 0 <= index <= |queued| && ticket !in queued[..index]
      {
        index := index + 1;
      }
      if index != |queued| {
        queued := queued[..index] + queued[index + 1..];
        assert View() == q.(queued := Without(q.queued, index));
        NextKeepsInv(q, Cancel(ticket), View());
        return true;
      }
      cancelled := ticket in running;
      running := running - {ticket};
      if cancelled {
        NextKeepsInv(q, Cancel(ticket), View());
      }
    }

    method FinishTicket(ticket: U64) returns (finished: bool)
      requires Valid()
      modifies this
      ensures Valid() && nextTicket == old(nextTicket)
      ensures finished <==> ticket in old(running)
      ensures if finished then Next(old(View()), Finish(ticket), View()) else View() == old(View())
    {
      ghost var q := View();
      finished := ticket in running;
      running := running - {ticket};
      if finished {
        NextKeepsInv(q, Finish(ticket), View());
      }
    }

    method Reset()
      requires Valid()
      modifies this
      ensures Valid() && queued == [] && running == {} && nextTicket == 1
    {
      queued := [];
      running := {};
      nextTicket := 1;
    }
  }
}
