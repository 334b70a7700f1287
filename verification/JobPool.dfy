/** The compare-and-swap loop that raises a shared maximum. */
module AtomicMax {
  import opened Common

  /** Where a thread is in the loop: about to load, or about to compare and swap against the value it saw. */
  datatype Raise = Load(candidate: nat) | Try(candidate: nat, current: nat) | Raised(candidate: nat)

  /** One atomic step. A weak compare-and-swap may fail although the value is the expected one. */
  function RaiseStep(value: nat, r: Raise, spurious: bool): (nat, Raise) {
    match r
    case Load(candidate) => (value, if candidate > value then Try(candidate, value) else Raised(candidate))
    case Try(candidate, current) =>
      if value == current && !spurious then (candidate, Raised(candidate))
      else (value, if candidate > value then Try(candidate, value) else Raised(candidate))
    case Raised(_) => (value, r)
  }

  /** What holds of the shared value and one thread's progress. */
  predicate RaiseInv(value: nat, r: Raise) {
    match r
    case Load(_) => true
    case Try(candidate, current) => current < candidate && current <= value
    case Raised(candidate) => candidate <= value
  }

  /** A step never lowers the value, keeps every thread's knowledge true and stores nothing but the candidate. */
  lemma RaiseStepIsMonotone(value: nat, r: Raise, spurious: bool, other: Raise)
    requires RaiseInv(value, r) && RaiseInv(value, other)
    ensures var (value', r') := RaiseStep(value, r, spurious);
            && value <= value' && (value' == value || value' == r.candidate)
            && r'.candidate == r.candidate
            && RaiseInv(value', r') && RaiseInv(value', other)
  {
  }

  /** Only the candidate is ever stored, and a thread never changes its candidate. */
  lemma RaiseStoresTheCandidate(value: nat, r: Raise, spurious: bool)
    ensures var (value', r') := RaiseStep(value, r, spurious);
            (value' == value || value' == r.candidate) && r'.candidate == r.candidate
  {
  }

  /** The cell after threads took steps in the order of `schedule`, each with or without a spurious failure. */
  function RunRaises(value: nat, threads: seq<Raise>, schedule: seq<(nat, bool)>): (nat, seq<Raise>) {
    if schedule == [] then (value, threads)
    else
      var (v, ts) := RunRaises(value, threads, schedule[..|schedule| - 1]);
      var (i, spurious) := schedule[|schedule| - 1];
      if i >= |ts| then (v, ts)
      else var (v', t') := RaiseStep(v, ts[i], spurious); (v', ts[i := t'])
  }

  /** Under any schedule the value is its start or some candidate, and at least every candidate whose loop is over. */
  lemma {:induction false} RaisesLeaveTheMaximum(value: nat, threads: seq<Raise>, schedule: seq<(nat, bool)>)
    requires forall i :: 0 <= i < |threads| ==> threads[i].Load?
    ensures var (v, ts) := RunRaises(value, threads, schedule);
            && |ts| == |threads|
            && value <= v
            && (v == value || exists i :: 0 <= i < |threads| && v == threads[i].candidate)
            && (forall i :: 0 <= i < |ts| ==> ts[i].candidate == threads[i].candidate && RaiseInv(v, ts[i]))
            && (forall i :: 0 <= i < |ts| && ts[i].Raised? ==> threads[i].candidate <= v)
  {
    if schedule != [] {
      RaisesLeaveTheMaximum(value, threads, schedule[..|schedule| - 1]);
      var (v, ts) := RunRaises(value, threads, schedule[..|schedule| - 1]);
      var (i, spurious) := schedule[|schedule| - 1];
      if i < |ts| {
        var (v', t') := RaiseStep(v, ts[i], spurious);
        var ts' := ts[i := t'];
        forall j | 0 <= j < |ts'|
          ensures RaiseInv(v', ts'[j])
        {
          RaiseStepIsMonotone(v, ts[i], spurious, ts[j]);
        }
      }
    }
  }

  lemma OneMoreRaise(value: nat, threads: seq<Raise>, schedule: seq<(nat, bool)>, i: nat)
    ensures var (v, ts) := RunRaises(value, threads, schedule);
            i < |ts| ==>
              var (v', t') := RaiseStep(v, ts[i], false);
              RunRaises(value, threads, schedule + [(i, false)]) == (v', ts[i := t'])
  {
    assert (schedule + [(i, false)])[..|schedule|] == schedule;
  }

  /** A thread that is left alone at the start of its loop comes to its end. */
  lemma RaiseEnds(value: nat, threads: seq<Raise>, schedule: seq<(nat, bool)>, i: nat)
    requires var ts := RunRaises(value, threads, schedule).1; i < |ts| && ts[i].Load?
    ensures var ts := RunRaises(value, threads, schedule).1;
            var ts' := RunRaises(value, threads, schedule + [(i, false)] + [(i, false)]).1;
            |ts'| == |ts| && ts' == ts[i := ts'[i]] && ts'[i].Raised?
  {
    OneMoreRaise(value, threads, schedule, i);
    OneMoreRaise(value, threads, schedule + [(i, false)], i);
    hide RunRaises;
  }

  /** The first `n` threads, each left alone in its turn, come to the end of their loops. */
  lemma {:induction false} RaisesEndOneByOne(value: nat, threads: seq<Raise>, n: nat)
    returns (schedule: seq<(nat, bool)>)
    requires n <= |threads| && forall i :: 0 <= i < |threads| ==> threads[i].Load?
    ensures var (_, ts) := RunRaises(value, threads, schedule);
            && |ts| == |threads| && (forall i :: 0 <= i < n ==> ts[i].Raised?)
            && (forall i :: n <= i < |threads| ==> ts[i] == threads[i])
    decreases n
  {
    if n == 0 {
      schedule := [];
    } else {
      var front := RaisesEndOneByOne(value, threads, n - 1);
      hide RunRaises, RaiseStep;
      RaiseEnds(value, threads, front, n - 1);
      schedule := front + [(n - 1, false)] + [(n - 1, false)];
    }
  }

  /** Every loop can come to its end, and the cell then holds the maximum of its start and all candidates. */
  lemma RaisesCanEnd(value: nat, threads: seq<Raise>) returns (schedule: seq<(nat, bool)>)
    requires forall i :: 0 <= i < |threads| ==> threads[i].Load?
    ensures var (v, ts) := RunRaises(value, threads, schedule);
            && |ts| == |threads| && (forall i :: 0 <= i < |ts| ==> ts[i].Raised?)
            && value <= v && (forall i :: 0 <= i < |threads| ==> threads[i].candidate <= v)
            && (v == value || exists i :: 0 <= i < |threads| && v == threads[i].candidate)
  {
    schedule := RaisesEndOneByOne(value, threads, |threads|);
    RaisesLeaveTheMaximum(value, threads, schedule);
    hide RunRaises, RaiseInv;
  }

  /** An atomic cell other threads write to as well. */
  class AtomicCell {
    var value: nat

    constructor (value: nat)
      ensures this.value == value
    {
      this.value := value;
    }
  }

  /**
   * The loop itself. `interference` is what happens before each compare-and-swap: a spurious failure, or another thread
   * raising the cell; once it is used up the compare-and-swap meets the value it expects.
   */
  method UpdateAtomicMax(cell: AtomicCell, candidate: nat, interference: seq<Option<nat>>)
    modifies cell
    ensures cell.value >= candidate && cell.value >= old(cell.value)
    ensures cell.value == candidate || cell.value == old(cell.value) || Some(cell.value) in interference
    ensures interference == [] ==> cell.value == Max(candidate, old(cell.value))
  {
    var current := cell.value;
    var attempt := 0;
    while candidate > current
      invariant current <= cell.value && old(cell.value) <= cell.value
      invariant attempt <= |interference|
      invariant cell.value == old(cell.value) || Some(cell.value) in interference
      invariant attempt == |interference| ==> current == cell.value
      invariant attempt == 0 ==> current == cell.value == old(cell.value)
      decreases |interference| - attempt
    {
      if attempt == |interference| {
        cell.value := candidate;
        break;
      }
      var event := interference[attempt];
      attempt := attempt + 1;
      if event.Some? && event.value > cell.value {
        assert event in interference;
        cell.value := event.value;
      }
      current := cell.value;
    }
  }
}

/** The bounded worker pool, with every atomic operation of every thread a step of its own. */
module JobPool {
  import opened Common
  import opened AtomicMax

  // ---------------------------------------------------------------------------------------------
  // Threads and state
  // ---------------------------------------------------------------------------------------------

  datatype SubmitResult = Accepted | QueueFull | Closed

  /** How far a call of `submit` got. */
  datatype Submitter =
    | Entered
    | Submitted
    | Numbered(id: int)
    | Sent(id: int)
    | AcceptCounted(id: int)
    | RaisingQueued(id: int, raise: Raise)
    | Refused(id: int, result: SubmitResult)
    | Returned(id: int, result: SubmitResult)

  /** How far a worker got with the job it received. */
  datatype Worker =
    | Idle
    | Received(id: int)
    | Dequeued(id: int)
    | Started(id: int)
    | RaisingActive(id: int, raise: Raise)
    | Running(id: int)
    | Handled(id: int, ok: bool)
    | OutcomeCounted(id: int, ok: bool)
    | Stored(id: int)
    | Deactivated(id: int)
    | Exited

  /** Counters are values of 64-bit cells; `sent`, `received`, `handled`, `stored`, `posted` and `taken` are history. */
  datatype Pool = Pool(
    capacity: nat,
    closed: bool,
    nextId: int,
    channel: seq<int>,
    results: map<int, bool>,
    submitters: seq<Submitter>,
    workers: seq<Worker>,
    submittedJobs: nat,
    acceptedJobs: nat,
    rejectedFullJobs: nat,
    rejectedClosedJobs: nat,
    startedJobs: nat,
    successJobs: nat,
    errorJobs: nat,
    queuedJobs: nat,
    activeJobs: nat,
    maxQueuedJobs: nat,
    maxActiveJobs: nat,
    sent: seq<int>,
    received: seq<int>,
    handled: seq<(int, bool)>,
    stored: seq<int>,
    posted: seq<int>,
    taken: seq<int>)

  function NewPool(workerCount: nat, capacity: nat): Pool {
    Pool(capacity, false, 1, [], map[], [], seq(workerCount, _ => Idle), 0, 0, 0, 0, 0, 0, 0, 0, 0, 0, 0,
         [], [], [], [], [], [])
  }

  /** The value a 64-bit cell holds for an unbounded count. */
  function Wrapped(x: int): nat {
    x % TWO_POW_64
  }

  datatype Action =
    | EnterSubmit
    | SubmitterStep(index: nat, spurious: bool)
    | WorkerStep(index: nat, ok: bool, spurious: bool)
    | TakeResult(id: int)
    | ClosePool

  /** An atomic addition of one, if it is made. */
  function CountIf(b: bool, x: nat): nat {
    if b then Wrapped(x + 1) else x
  }

  /** The channel takes this call's job. */
  predicate Sends(p: Pool, s: Submitter) {
    s.Numbered? && !p.closed && |p.channel| < p.capacity
  }

  /** Where a call is after its next atomic operation. */
  function NextSubmitter(p: Pool, s: Submitter, spurious: bool): Submitter {
    match s
    case Entered => Submitted
    case Submitted => Numbered(p.nextId)
    case Numbered(id) => if Sends(p, s) then Sent(id) else Refused(id, if p.closed then Closed else QueueFull)
    case Sent(id) => AcceptCounted(id)
    case AcceptCounted(id) => RaisingQueued(id, Load(Wrapped(p.queuedJobs + 1)))
    case RaisingQueued(id, raise) =>
      var raise' := RaiseStep(p.maxQueuedJobs, raise, spurious).1;
      if raise'.Raised? then Returned(id, Accepted) else RaisingQueued(id, raise')
    case Refused(id, result) => Returned(id, result)
    case Returned(_, _) => s
  }

  function StepSubmitter(p: Pool, i: nat, spurious: bool): Pool
    requires i < |p.submitters|
  {
    var s := p.submitters[i];
    p.(submitters := p.submitters[i := NextSubmitter(p, s, spurious)],
       nextId := if s.Submitted? then p.nextId + 1 else p.nextId,
       channel := if Sends(p, s) then p.channel + [s.id] else p.channel,
       sent := if Sends(p, s) then p.sent + [s.id] else p.sent,
       submittedJobs := CountIf(s.Entered?, p.submittedJobs),
       acceptedJobs := CountIf(s.Sent?, p.acceptedJobs),
       queuedJobs := CountIf(s.AcceptCounted?, p.queuedJobs),
       maxQueuedJobs := if s.RaisingQueued? then RaiseStep(p.maxQueuedJobs, s.raise, spurious).0 else p.maxQueuedJobs,
       rejectedFullJobs := CountIf(s.Refused? && s.result == QueueFull, p.rejectedFullJobs),
       rejectedClosedJobs := CountIf(s.Refused? && s.result != QueueFull, p.rejectedClosedJobs))
  }

  /** The worker takes the next job. */
  predicate Receives(p: Pool, w: Worker) {
    w.Idle? && p.channel != []
  }

  /** Where a worker is after its next atomic operation; `ok` is what the handler returns. */
  function NextWorker(p: Pool, w: Worker, ok: bool, spurious: bool): Worker {
    match w
    case Idle => if Receives(p, w) then Received(p.channel[0]) else if p.closed then Exited else Idle
    case Received(id) => Dequeued(id)
    case Dequeued(id) => Started(id)
    case Started(id) => RaisingActive(id, Load(Wrapped(p.activeJobs + 1)))
    case RaisingActive(id, raise) =>
      var raise' := RaiseStep(p.maxActiveJobs, raise, spurious).1;
      if raise'.Raised? then Running(id) else RaisingActive(id, raise')
    case Running(id) => Handled(id, ok)
    case Handled(id, ok) => OutcomeCounted(id, ok)
    case OutcomeCounted(id, ok) => Stored(id)
    case Stored(id) => Deactivated(id)
    case Deactivated(_) => Idle
    case Exited => Exited
  }

  function StepWorker(p: Pool, i: nat, ok: bool, spurious: bool): Pool
    requires i < |p.workers|
  {
    var w := p.workers[i];
    p.(workers := p.workers[i := NextWorker(p, w, ok, spurious)],
       channel := if Receives(p, w) then p.channel[1..] else p.channel,
       received := if Receives(p, w) then p.received + [p.channel[0]] else p.received,
       queuedJobs := if w.Received? then Wrapped(p.queuedJobs - 1) else p.queuedJobs,
       startedJobs := CountIf(w.Dequeued?, p.startedJobs),
       activeJobs := if w.Stored? then Wrapped(p.activeJobs - 1) else CountIf(w.Started?, p.activeJobs),
       maxActiveJobs := if w.RaisingActive? then RaiseStep(p.maxActiveJobs, w.raise, spurious).0 else p.maxActiveJobs,
       handled := if w.Running? then p.handled + [(w.id, ok)] else p.handled,
       successJobs := CountIf(w.Handled? && w.ok, p.successJobs),
       errorJobs := CountIf(w.Handled? && !w.ok, p.errorJobs),
       results := if w.OutcomeCounted? then p.results[w.id := w.ok] else p.results,
       stored := if w.OutcomeCounted? then p.stored + [w.id] else p.stored,
       posted := if w.Deactivated? then p.posted + [w.id] else p.posted)
  }

  /** The pool can be closed only by its owner, when no call borrows it. */
  predicate NoSubmitInProgress(p: Pool) {
    forall i :: 0 <= i < |p.submitters| ==> p.submitters[i].Returned?
  }

  function Step(p: Pool, a: Action): Pool {
    match a
    case EnterSubmit => if p.closed then p else WithSubmitter(p)
    case SubmitterStep(i, spurious) => if i >= |p.submitters| then p else StepSubmitter(p, i, spurious)
    case WorkerStep(i, ok, spurious) => if i >= |p.workers| then p else StepWorker(p, i, ok, spurious)
    case TakeResult(id) =>
      if id !in p.results then p else WithTaken(p, id)
    case ClosePool => if NoSubmitInProgress(p) then p.(closed := true) else p
  }

  function Run(p: Pool, actions: seq<Action>): Pool {
    if actions == [] then p else Step(Run(p, actions[..|actions| - 1]), actions[|actions| - 1])
  }

  // ---------------------------------------------------------------------------------------------
  // Sums over threads
  // ---------------------------------------------------------------------------------------------

  function Sum<T>(threads: seq<T>, weight: T -> int): int {
    if threads == [] then 0 else weight(threads[0]) + Sum(threads[1..], weight)
  }

  lemma {:induction false} SumUpdate<T>(threads: seq<T>, i: nat, t: T, weight: T -> int)
    requires i < |threads|
    ensures Sum(threads[i := t], weight) == Sum(threads, weight) - weight(threads[i]) + weight(t)
  {
    if i == 0 {
      assert threads[0 := t][1..] == threads[1..];
    } else {
      SumUpdate(threads[1..], i - 1, t, weight);
      assert threads[i := t][1..] == threads[1..][i - 1 := t];
    }
  }

  lemma {:induction false} SumAppend<T>(threads: seq<T>, t: T, weight: T -> int)
    ensures Sum(threads + [t], weight) == Sum(threads, weight) + weight(t)
  {
    if threads != [] {
      SumAppend(threads[1..], t, weight);
      assert (threads + [t])[1..] == threads[1..] + [t];
    } else {
      assert threads + [t] == [t] && [t][1..] == [];
    }
  }

  lemma {:induction false} SumBounds<T>(threads: seq<T>, weight: T -> int)
    requires forall t :: 0 <= weight(t) <= 1
    ensures 0 <= Sum(threads, weight) <= |threads|
  {
    if threads != [] {
      SumBounds(threads[1..], weight);
    }
  }

  lemma {:induction false} SumZero<T>(threads: seq<T>, weight: T -> int)
    requires forall i :: 0 <= i < |threads| ==> weight(threads[i]) == 0
    ensures Sum(threads, weight) == 0
  {
    if threads != [] {
      SumZero(threads[1..], weight);
    }
  }

  function One(b: bool): int {
    if b then 1 else 0
  }

  // ---------------------------------------------------------------------------------------------
  // Accounting
  // ---------------------------------------------------------------------------------------------

  function NotCounted(s: Submitter): int { One(s.Entered?) }

  function NotAccepted(s: Submitter): int { One(s.Sent?) }

  function NotQueued(s: Submitter): int { One(s.Sent? || s.AcceptCounted?) }

  function PastSend(s: Submitter): int {
    One(s.Sent? || s.AcceptCounted? || s.RaisingQueued? || (s.Returned? && s.result == Accepted))
  }

  function ReturnedFull(s: Submitter): int { One(s.Returned? && s.result == QueueFull) }

  function ReturnedClosed(s: Submitter): int { One(s.Returned? && s.result == Closed) }

  function StillQueued(w: Worker): int { One(w.Received?) }

  function NotStarted(w: Worker): int { One(w.Received? || w.Dequeued?) }

  function Active(w: Worker): int {
    One(w.RaisingActive? || w.Running? || w.Handled? || w.OutcomeCounted? || w.Stored?)
  }

  function Unhandled(w: Worker): int {
    One(w.Received? || w.Dequeued? || w.Started? || w.RaisingActive? || w.Running?)
  }

  function SuccessUncounted(w: Worker): int { One(w.Handled? && w.ok) }

  function ErrorUncounted(w: Worker): int { One(w.Handled? && !w.ok) }

  function Succeeded(job: (int, bool)): int { One(job.1) }

  function Errored(job: (int, bool)): int { One(!job.1) }

  /** What the submission counters count, once the calls that still owe an increment are taken off. */
  ghost predicate SubmittedExact(p: Pool) {
    p.submittedJobs == Wrapped(|p.submitters| - Sum(p.submitters, NotCounted))
  }

  ghost predicate AcceptedExact(p: Pool) {
    p.acceptedJobs == Wrapped(|p.sent| - Sum(p.submitters, NotAccepted))
  }

  ghost predicate RejectedExact(p: Pool) {
    && p.rejectedFullJobs == Wrapped(Sum(p.submitters, ReturnedFull))
    && p.rejectedClosedJobs == Wrapped(Sum(p.submitters, ReturnedClosed))
    && (forall i :: 0 <= i < |p.submitters| && p.submitters[i].Refused? ==> p.submitters[i].result != Accepted)
  }

  ghost predicate SentExact(p: Pool) {
    |p.sent| == Sum(p.submitters, PastSend)
  }

  /** The queue counter is the channel length, less what submitters owe, plus what workers owe; it may wrap. */
  ghost predicate QueuedExact(p: Pool) {
    && |p.channel| <= p.capacity
    && p.queuedJobs == Wrapped(|p.channel| - Sum(p.submitters, NotQueued) + Sum(p.workers, StillQueued))
  }

  ghost predicate StartedExact(p: Pool) {
    p.startedJobs == Wrapped(|p.received| - Sum(p.workers, NotStarted))
  }

  ghost predicate HandledExact(p: Pool) {
    |p.handled| == |p.received| - Sum(p.workers, Unhandled)
  }

  ghost predicate OutcomesExact(p: Pool) {
    && p.successJobs == Wrapped(Sum(p.handled, Succeeded) - Sum(p.workers, SuccessUncounted))
    && p.errorJobs == Wrapped(Sum(p.handled, Errored) - Sum(p.workers, ErrorUncounted))
  }

  /** The active counter is exact, and neither it nor its maximum passes the number of workers. */
  ghost predicate ActiveExact(p: Pool) {
    && |p.workers| < TWO_POW_64
    && p.activeJobs == Sum(p.workers, Active)
    && p.maxActiveJobs <= |p.workers|
    && (forall i :: 0 <= i < |p.workers| && p.workers[i].RaisingActive? ==> p.workers[i].raise.candidate <= |p.workers|)
  }

  ghost predicate Accounts(p: Pool) {
    && SubmittedExact(p) && AcceptedExact(p) && RejectedExact(p) && SentExact(p) && QueuedExact(p)
    && StartedExact(p) && HandledExact(p) && OutcomesExact(p) && ActiveExact(p)
  }

  lemma WrapStep(x: int, y: nat)
    requires y == Wrapped(x)
    ensures Wrapped(y + 1) == Wrapped(x + 1) && Wrapped(y - 1) == Wrapped(x - 1)
  {
    var q := x / TWO_POW_64;
    WrapMultiple(q, y + 1);
    WrapMultiple(q, y - 1);
    assert x == q * TWO_POW_64 + y;
    hide Wrapped;
  }

  lemma WrapMultiple(q: int, x: int)
    ensures Wrapped(q * TWO_POW_64 + x) == Wrapped(x)
  {
  }

  lemma SubmitterKeepsSubmitted(p: Pool, i: nat, spurious: bool)
    requires SubmittedExact(p) && i < |p.submitters|
    ensures SubmittedExact(StepSubmitter(p, i, spurious))
  {
    hide Wrapped, RaiseStep;
    var s' := StepSubmitter(p, i, spurious).submitters[i];
    SumUpdate(p.submitters, i, s', NotCounted);
    hide Sum;
    WrapStep(|p.submitters| - Sum(p.submitters, NotCounted), p.submittedJobs);
  }

  lemma SubmitterKeepsAccepted(p: Pool, i: nat, spurious: bool)
    requires AcceptedExact(p) && i < |p.submitters|
    ensures AcceptedExact(StepSubmitter(p, i, spurious))
  {
    hide Wrapped, RaiseStep;
    var s' := StepSubmitter(p, i, spurious).submitters[i];
    SumUpdate(p.submitters, i, s', NotAccepted);
    hide Sum;
    WrapStep(|p.sent| - Sum(p.submitters, NotAccepted), p.acceptedJobs);
  }

  /** How a submitter's step changes the calls that were refused and the two counters of refusals. */
  lemma SubmitterRefusalSteps(p: Pool, i: nat, spurious: bool)
    requires i < |p.submitters| && (p.submitters[i].Refused? ==> p.submitters[i].result != Accepted)
    ensures var p' := StepSubmitter(p, i, spurious);
            var s, s' := p.submitters[i], if i < |p'.submitters| then p'.submitters[i] else Entered;
            && p'.submitters == p.submitters[i := s']
            && (s'.Refused? ==> s'.result != Accepted)
            && ReturnedFull(s') == ReturnedFull(s) + One(s.Refused? && s.result == QueueFull)
            && ReturnedClosed(s') == ReturnedClosed(s) + One(s.Refused? && s.result == Closed)
            && p'.rejectedFullJobs ==
               (if s.Refused? && s.result == QueueFull then Wrapped(p.rejectedFullJobs + 1) else p.rejectedFullJobs)
            && p'.rejectedClosedJobs ==
               (if s.Refused? && s.result == Closed then Wrapped(p.rejectedClosedJobs + 1) else p.rejectedClosedJobs)
  {
    hide Wrapped, RaiseStep;
  }

  lemma SubmitterKeepsRejected(p: Pool, i: nat, spurious: bool)
    requires RejectedExact(p) && i < |p.submitters|
    ensures RejectedExact(StepSubmitter(p, i, spurious))
  {
    SubmitterRefusalSteps(p, i, spurious);
    var s' := StepSubmitter(p, i, spurious).submitters[i];
    hide Wrapped, StepSubmitter;
    SumUpdate(p.submitters, i, s', ReturnedFull);
    SumUpdate(p.submitters, i, s', ReturnedClosed);
    hide Sum;
    WrapStep(Sum(p.submitters, ReturnedFull), p.rejectedFullJobs);
    WrapStep(Sum(p.submitters, ReturnedClosed), p.rejectedClosedJobs);
  }

  lemma SubmitterKeepsSent(p: Pool, i: nat, spurious: bool)
    requires SentExact(p) && RejectedExact(p) && i < |p.submitters|
    ensures SentExact(StepSubmitter(p, i, spurious))
  {
    hide Wrapped, RaiseStep;
    var s' := StepSubmitter(p, i, spurious).submitters[i];
    SumUpdate(p.submitters, i, s', PastSend);
    hide Sum;
  }

  lemma SubmitterKeepsQueued(p: Pool, i: nat, spurious: bool)
    requires QueuedExact(p) && i < |p.submitters|
    ensures QueuedExact(StepSubmitter(p, i, spurious))
  {
    hide Wrapped, RaiseStep;
    var s' := StepSubmitter(p, i, spurious).submitters[i];
    SumUpdate(p.submitters, i, s', NotQueued);
    hide Sum;
    WrapStep(|p.channel| - Sum(p.submitters, NotQueued) + Sum(p.workers, StillQueued), p.queuedJobs);
  }

  lemma WorkerKeepsQueued(p: Pool, i: nat, ok: bool, spurious: bool)
    requires QueuedExact(p) && i < |p.workers|
    ensures QueuedExact(StepWorker(p, i, ok, spurious))
  {
    hide Wrapped, RaiseStep;
    var w' := StepWorker(p, i, ok, spurious).workers[i];
    SumUpdate(p.workers, i, w', StillQueued);
    hide Sum;
    WrapStep(|p.channel| - Sum(p.submitters, NotQueued) + Sum(p.workers, StillQueued), p.queuedJobs);
  }

  lemma WorkerKeepsStarted(p: Pool, i: nat, ok: bool, spurious: bool)
    requires StartedExact(p) && i < |p.workers|
    ensures StartedExact(StepWorker(p, i, ok, spurious))
  {
    hide Wrapped, RaiseStep;
    var w' := StepWorker(p, i, ok, spurious).workers[i];
    SumUpdate(p.workers, i, w', NotStarted);
    hide Sum;
    WrapStep(|p.received| - Sum(p.workers, NotStarted), p.startedJobs);
  }

  lemma WorkerKeepsHandled(p: Pool, i: nat, ok: bool, spurious: bool)
    requires HandledExact(p) && i < |p.workers|
    ensures HandledExact(StepWorker(p, i, ok, spurious))
  {
    hide Wrapped, RaiseStep;
    var w' := StepWorker(p, i, ok, spurious).workers[i];
    SumUpdate(p.workers, i, w', Unhandled);
    hide Sum;
  }

  lemma WorkerKeepsOutcomes(p: Pool, i: nat, ok: bool, spurious: bool)
    requires OutcomesExact(p) && i < |p.workers|
    ensures OutcomesExact(StepWorker(p, i, ok, spurious))
  {
    hide Wrapped, RaiseStep;
    var w' := StepWorker(p, i, ok, spurious).workers[i];
    SumUpdate(p.workers, i, w', SuccessUncounted);
    SumUpdate(p.workers, i, w', ErrorUncounted);
    if p.workers[i].Running? {
      SumAppend(p.handled, (p.workers[i].id, ok), Succeeded);
      SumAppend(p.handled, (p.workers[i].id, ok), Errored);
    }
    hide Sum;
    WrapStep(Sum(p.handled, Succeeded) - Sum(p.workers, SuccessUncounted), p.successJobs);
    WrapStep(Sum(p.handled, Errored) - Sum(p.workers, ErrorUncounted), p.errorJobs);
  }

  lemma WrapSmall(x: int)
    requires 0 <= x < TWO_POW_64
    ensures Wrapped(x) == x
  {
  }

  /** How a worker's step changes the active counter and its maximum. */
  lemma WorkerActiveSteps(p: Pool, i: nat, ok: bool, spurious: bool)
    requires i < |p.workers|
    ensures var p' := StepWorker(p, i, ok, spurious);
            var w, w' := p.workers[i], if i < |p'.workers| then p'.workers[i] else Idle;
            && p'.workers == p.workers[i := w']
            && Active(w') == Active(w) + One(w.Started?) - One(w.Stored?)
            && p'.activeJobs == (if w.Started? then Wrapped(p.activeJobs + 1)
                                 else if w.Stored? then Wrapped(p.activeJobs - 1) else p.activeJobs)
            && p'.maxActiveJobs == (if w.RaisingActive? then RaiseStep(p.maxActiveJobs, w.raise, spurious).0
                                    else p.maxActiveJobs)
            && (w'.RaisingActive? ==>
                  || (w.Started? && w'.raise == Load(Wrapped(p.activeJobs + 1)))
                  || (w.RaisingActive? && w'.raise == RaiseStep(p.maxActiveJobs, w.raise, spurious).1))
  {
    hide Wrapped, RaiseStep;
    match p.workers[i]
    case Idle =>
    case Started(_) =>
    case Stored(_) =>
    case RaisingActive(_, _) =>
    case _ =>
  }

  lemma WorkerKeepsActive(p: Pool, i: nat, ok: bool, spurious: bool)
    requires ActiveExact(p) && i < |p.workers|
    ensures ActiveExact(StepWorker(p, i, ok, spurious))
  {
    WorkerActiveSteps(p, i, ok, spurious);
    var w, w' := p.workers[i], StepWorker(p, i, ok, spurious).workers[i];
    hide Wrapped, RaiseStep, StepWorker;
    SumUpdate(p.workers, i, w', Active);
    SumBounds(p.workers, Active);
    SumBounds(p.workers[i := w'], Active);
    hide Sum;
    match w
    case Started(_) => WrapSmall(p.activeJobs + 1);
    case Stored(_) => WrapSmall(p.activeJobs - 1);
    case RaisingActive(_, raise) => RaiseStoresTheCandidate(p.maxActiveJobs, raise, spurious);
    case _ =>
  }

  // ---------------------------------------------------------------------------------------------
  // Exactly once
  // ---------------------------------------------------------------------------------------------

  predicate HasId(s: Submitter) {
    !s.Entered? && !s.Submitted?
  }

  /** Ids are drawn once each; the ids sent are those of the calls past their send, without repetition. */
  ghost predicate UniqueIds(submitters: seq<Submitter>, nextId: int, sent: seq<int>) {
    && (forall i :: 0 <= i < |submitters| && HasId(submitters[i]) ==> submitters[i].id < nextId)
    && (forall i, j :: 0 <= i < j < |submitters| && HasId(submitters[i]) && HasId(submitters[j]) ==>
          submitters[i].id != submitters[j].id)
    && (forall k :: 0 <= k < |sent| ==> SentBySomeone(submitters, sent[k]))
    && (forall i :: 0 <= i < |submitters| && PastSend(submitters[i]) == 1 ==> submitters[i].id in sent)
    && NoRepeats(sent)
  }

  ghost predicate SentBySomeone(submitters: seq<Submitter>, id: int) {
    exists i :: 0 <= i < |submitters| && PastSend(submitters[i]) == 1 && submitters[i].id == id
  }

  ghost predicate IdsUnique(p: Pool) {
    UniqueIds(p.submitters, p.nextId, p.sent)
  }

  ghost predicate NoRepeats(ids: seq<int>) {
    forall i, j :: 0 <= i < j < |ids| ==> ids[i] != ids[j]
  }

  /** The worker holds this job and has not stored its result yet. */
  predicate Holds(w: Worker, id: int) {
    !w.Idle? && !w.Exited? && !w.Stored? && !w.Deactivated? && w.id == id
  }

  function HoldsJob(id: int): Worker -> int {
    w => One(Holds(w, id))
  }

  /** The worker stored this job's result and has not announced it yet. */
  function Announcing(id: int): Worker -> int {
    (w: Worker) => One((w.Stored? || w.Deactivated?) && w.id == id)
  }

  function Times(ids: seq<int>, id: int): nat {
    multiset(ids)[id]
  }

  lemma TimesAppend(ids: seq<int>, last: int, id: int)
    ensures Times(ids + [last], id) == Times(ids, id) + One(last == id)
  {
  }

  lemma {:induction false} TimesWithoutRepeats(ids: seq<int>, id: int)
    requires NoRepeats(ids)
    ensures Times(ids, id) == One(id in ids)
  {
    if ids != [] {
      var front, last := ids[..|ids| - 1], ids[|ids| - 1];
      TimesWithoutRepeats(front, id);
      assert front + [last] == ids;
      TimesAppend(front, last, id);
    }
  }

  /** Jobs leave the channel in the order they were sent, and each one received is held by one worker or stored. */
  ghost predicate EachReceivedOnce(p: Pool) {
    && p.sent == p.received + p.channel
    && (forall id :: Times(p.received, id) == Times(p.stored, id) + Sum(p.workers, HoldsJob(id)))
  }

  /** Each result stored is announced once, by the worker that stored it, and only afterwards. */
  ghost predicate EachPostedOnce(p: Pool) {
    forall id :: Times(p.stored, id) == Times(p.posted, id) + Sum(p.workers, Announcing(id))
  }

  /** Each result stored is waiting or was taken, never both. */
  ghost predicate EachTakenOnce(p: Pool) {
    && (forall id :: id in p.results ==> id in p.stored && id !in p.taken)
    && (forall id :: id in p.stored ==> id in p.results || id in p.taken)
    && (forall id :: id in p.taken ==> id in p.stored)
    && NoRepeats(p.taken)
  }

  /** A result is what the handler returned for that job. */
  ghost predicate ResultsHonest(p: Pool) {
    && (forall id :: id in p.results ==> (id, p.results[id]) in p.handled)
    && (forall i :: 0 <= i < |p.workers| && (p.workers[i].Handled? || p.workers[i].OutcomeCounted?) ==>
          (p.workers[i].id, p.workers[i].ok) in p.handled)
  }

  /** A worker leaves only a closed, empty channel. */
  ghost predicate ExitsLate(p: Pool) {
    && (p.closed ==> NoSubmitInProgress(p))
    && ((exists i :: 0 <= i < |p.workers| && p.workers[i].Exited?) ==> p.closed && p.channel == [])
  }

  /** How a submitter's step changes its id and the ids sent. */
  lemma SubmitterIdSteps(p: Pool, i: nat, spurious: bool)
    requires i < |p.submitters|
    requires p.submitters[i].Refused? ==> p.submitters[i].result != Accepted
    ensures var p' := StepSubmitter(p, i, spurious);
            var s, s' := p.submitters[i], if i < |p'.submitters| then p'.submitters[i] else Entered;
            && p'.submitters == p.submitters[i := s']
            && p'.nextId == p.nextId + One(s.Submitted?)
            && (HasId(s') <==> HasId(s) || s.Submitted?)
            && (HasId(s') ==> s'.id == if s.Submitted? then p.nextId else s.id)
            && PastSend(s) <= PastSend(s')
            && p'.sent == (if PastSend(s) < PastSend(s') then p.sent + [s'.id] else p.sent)
            && (s.Submitted? ==> s' == Numbered(p.nextId))
            && (PastSend(s) < PastSend(s') ==> s.Numbered? && s' == Sent(s.id))
  {
    hide Wrapped, RaiseStep;
  }

  lemma SentStaysSent(submitters: seq<Submitter>, i: nat, s': Submitter, id: int)
    requires SentBySomeone(submitters, id) && i < |submitters|
    requires PastSend(submitters[i]) == 1 ==> PastSend(s') == 1 && s'.id == submitters[i].id
    ensures SentBySomeone(submitters[i := s'], id)
  {
    var j :| 0 <= j < |submitters| && PastSend(submitters[j]) == 1 && submitters[j].id == id;
    assert PastSend(submitters[i := s'][j]) == 1;
  }

  /** A call that draws an id takes the next one. */
  lemma DrawKeepsIds(submitters: seq<Submitter>, nextId: int, sent: seq<int>, i: nat)
    requires UniqueIds(submitters, nextId, sent) && i < |submitters| && submitters[i].Submitted?
    ensures UniqueIds(submitters[i := Numbered(nextId)], nextId + 1, sent)
  {
    forall k | 0 <= k < |sent|
      ensures SentBySomeone(submitters[i := Numbered(nextId)], sent[k])
    {
      SentStaysSent(submitters, i, Numbered(nextId), sent[k]);
    }
  }

  lemma SendKeepsIds(submitters: seq<Submitter>, nextId: int, sent: seq<int>, i: nat)
    requires UniqueIds(submitters, nextId, sent) && i < |submitters| && submitters[i].Numbered?
    ensures UniqueIds(submitters[i := Sent(submitters[i].id)], nextId, sent + [submitters[i].id])
  {
    var id := submitters[i].id;
    var submitters' := submitters[i := Sent(id)];
    assert id !in sent by {
      assert forall k :: 0 <= k < |sent| ==> SentBySomeone(submitters, sent[k]);
    }
    assert PastSend(submitters'[i]) == 1;
    forall k | 0 <= k < |sent + [id]|
      ensures SentBySomeone(submitters', (sent + [id])[k])
    {
      if k < |sent| {
        SentStaysSent(submitters, i, Sent(id), sent[k]);
      }
    }
  }

  lemma MoveKeepsIds(submitters: seq<Submitter>, nextId: int, sent: seq<int>, i: nat, s': Submitter)
    requires UniqueIds(submitters, nextId, sent) && i < |submitters|
    requires HasId(s') <==> HasId(submitters[i])
    requires HasId(s') ==> s'.id == submitters[i].id
    requires PastSend(s') == PastSend(submitters[i])
    ensures UniqueIds(submitters[i := s'], nextId, sent)
  {
    forall k | 0 <= k < |sent|
      ensures SentBySomeone(submitters[i := s'], sent[k])
    {
      SentStaysSent(submitters, i, s', sent[k]);
    }
  }

  lemma SubmitterKeepsIds(p: Pool, i: nat, spurious: bool)
    requires IdsUnique(p) && RejectedExact(p) && i < |p.submitters|
    ensures IdsUnique(StepSubmitter(p, i, spurious))
  {
    var p' := StepSubmitter(p, i, spurious);
    SubmitterIdSteps(p, i, spurious);
    hide Wrapped, StepSubmitter, Sum, UniqueIds;
    if p.submitters[i].Submitted? {
      DrawKeepsIds(p.submitters, p.nextId, p.sent, i);
    } else if PastSend(p.submitters[i]) < PastSend(p'.submitters[i]) {
      SendKeepsIds(p.submitters, p.nextId, p.sent, i);
    } else {
      MoveKeepsIds(p.submitters, p.nextId, p.sent, i, p'.submitters[i]);
    }
  }

  /** A worker takes the oldest job of the channel. */
  lemma WorkerKeepsJobOrder(p: Pool, i: nat, ok: bool, spurious: bool)
    requires p.sent == p.received + p.channel && i < |p.workers|
    ensures var p' := StepWorker(p, i, ok, spurious); p'.sent == p'.received + p'.channel
  {
    hide Wrapped, RaiseStep, NextWorker;
    if Receives(p, p.workers[i]) {
      JoinIsAssociative(p.received, [p.channel[0]], p.channel[1..]);
      assert [p.channel[0]] + p.channel[1..] == p.channel;
    }
  }

  lemma WorkerKeepsReceivedOnce(p: Pool, i: nat, ok: bool, spurious: bool)
    requires EachReceivedOnce(p) && i < |p.workers|
    ensures EachReceivedOnce(StepWorker(p, i, ok, spurious))
  {
    WorkerKeepsJobOrder(p, i, ok, spurious);
    hide StepWorker, Times, Sum, HoldsJob;
    var p' := StepWorker(p, i, ok, spurious);
    forall id
      ensures Times(p'.received, id) == Times(p'.stored, id) + Sum(p'.workers, HoldsJob(id))
    {
      WorkerReceivesOnce(p, i, ok, spurious, id);
    }
  }

  lemma WorkerReceivesOnce(p: Pool, i: nat, ok: bool, spurious: bool, id: int)
    requires i < |p.workers| && Times(p.received, id) == Times(p.stored, id) + Sum(p.workers, HoldsJob(id))
    ensures var p' := StepWorker(p, i, ok, spurious);
            Times(p'.received, id) == Times(p'.stored, id) + Sum(p'.workers, HoldsJob(id))
  {
    hide Times, Wrapped, RaiseStep, CountIf;
    var w' := NextWorker(p, p.workers[i], ok, spurious);
    SumUpdate(p.workers, i, w', HoldsJob(id));
    hide Sum;
    match p.workers[i]
    case Idle =>
      if p.channel != [] {
        TimesAppend(p.received, p.channel[0], id);
      }
    case OutcomeCounted(stored, _) => TimesAppend(p.stored, stored, id);
    case _ =>
  }

  lemma WorkerKeepsPostedOnce(p: Pool, i: nat, ok: bool, spurious: bool)
    requires EachPostedOnce(p) && i < |p.workers|
    ensures EachPostedOnce(StepWorker(p, i, ok, spurious))
  {
    hide StepWorker, Times, Sum, Announcing;
    var p' := StepWorker(p, i, ok, spurious);
    forall id
      ensures Times(p'.stored, id) == Times(p'.posted, id) + Sum(p'.workers, Announcing(id))
    {
      WorkerPostsOnce(p, i, ok, spurious, id);
    }
  }

  lemma WorkerPostsOnce(p: Pool, i: nat, ok: bool, spurious: bool, id: int)
    requires i < |p.workers| && Times(p.stored, id) == Times(p.posted, id) + Sum(p.workers, Announcing(id))
    ensures var p' := StepWorker(p, i, ok, spurious);
            Times(p'.stored, id) == Times(p'.posted, id) + Sum(p'.workers, Announcing(id))
  {
    hide Times, Wrapped, RaiseStep, CountIf;
    var w' := NextWorker(p, p.workers[i], ok, spurious);
    SumUpdate(p.workers, i, w', Announcing(id));
    hide Sum;
    match p.workers[i]
    case OutcomeCounted(stored, _) => TimesAppend(p.stored, stored, id);
    case Deactivated(posted) => TimesAppend(p.posted, posted, id);
    case _ =>
  }

  lemma {:induction false} SumPositive<T>(threads: seq<T>, i: nat, weight: T -> int)
    requires i < |threads| && weight(threads[i]) == 1 && forall t :: 0 <= weight(t) <= 1
    ensures Sum(threads, weight) >= 1
  {
    SumBounds(threads[1..], weight);
    if i > 0 {
      SumPositive(threads[1..], i - 1, weight);
    }
  }

  /** No job is in the hands of two workers, and none that is in a worker's hands was stored before. */
  lemma HeldIsNotStored(p: Pool, i: nat, id: int)
    requires EachReceivedOnce(p) && NoRepeats(p.sent) && i < |p.workers| && Holds(p.workers[i], id)
    ensures id !in p.stored && Sum(p.workers, HoldsJob(id)) == 1
  {
    SumPositive(p.workers, i, HoldsJob(id));
    TimesWithoutRepeats(p.sent, id);
    assert multiset(p.sent) == multiset(p.received) + multiset(p.channel);
    assert Times(p.received, id) == Times(p.stored, id) + Sum(p.workers, HoldsJob(id));
    assert id in p.stored ==> id in multiset(p.stored);
  }

  lemma WorkerKeepsTakenOnce(p: Pool, i: nat, ok: bool, spurious: bool)
    requires EachTakenOnce(p) && EachReceivedOnce(p) && IdsUnique(p) && i < |p.workers|
    ensures EachTakenOnce(StepWorker(p, i, ok, spurious))
  {
    if p.workers[i].OutcomeCounted? {
      HeldIsNotStored(p, i, p.workers[i].id);
    }
    hide Wrapped, RaiseStep, EachReceivedOnce, IdsUnique;
  }

  lemma WorkerKeepsHonest(p: Pool, i: nat, ok: bool, spurious: bool)
    requires ResultsHonest(p) && i < |p.workers|
    ensures ResultsHonest(StepWorker(p, i, ok, spurious))
  {
    hide Wrapped, RaiseStep;
    match p.workers[i]
    case Running(_) =>
    case Handled(_, _) =>
    case OutcomeCounted(_, _) =>
    case _ =>
  }

  lemma WorkerKeepsExits(p: Pool, i: nat, ok: bool, spurious: bool)
    requires ExitsLate(p) && i < |p.workers|
    ensures ExitsLate(StepWorker(p, i, ok, spurious))
  {
    hide Wrapped, RaiseStep;
  }

  // ---------------------------------------------------------------------------------------------
  // All reachable states
  // ---------------------------------------------------------------------------------------------

  ghost predicate Deliveries(p: Pool) {
    && IdsUnique(p) && EachReceivedOnce(p) && EachPostedOnce(p) && EachTakenOnce(p)
    && ResultsHonest(p) && ExitsLate(p)
  }

  ghost predicate Inv(p: Pool) {
    Accounts(p) && Deliveries(p)
  }

  /** What a submitter's step leaves alone. */
  lemma SubmitterFrame(p: Pool, i: nat, spurious: bool)
    requires i < |p.submitters|
    ensures var p' := StepSubmitter(p, i, spurious);
            && p'.workers == p.workers && p'.received == p.received && p'.handled == p.handled && p'.stored == p.stored
            && p'.results == p.results && p'.taken == p.taken && p'.posted == p.posted && p'.closed == p.closed
            && p'.startedJobs == p.startedJobs && p'.successJobs == p.successJobs && p'.errorJobs == p.errorJobs
            && p'.activeJobs == p.activeJobs && p'.maxActiveJobs == p.maxActiveJobs && p'.capacity == p.capacity
  {
    hide Wrapped, RaiseStep;
  }

  /** What a worker's step leaves alone. */
  lemma WorkerFrame(p: Pool, i: nat, ok: bool, spurious: bool)
    requires i < |p.workers|
    ensures var p' := StepWorker(p, i, ok, spurious);
            && p'.submitters == p.submitters && p'.sent == p.sent && p'.nextId == p.nextId && p'.closed == p.closed
            && p'.submittedJobs == p.submittedJobs && p'.acceptedJobs == p.acceptedJobs
            && p'.rejectedFullJobs == p.rejectedFullJobs && p'.rejectedClosedJobs == p.rejectedClosedJobs
            && |p'.workers| == |p.workers| && p'.capacity == p.capacity
  {
    hide Wrapped, RaiseStep;
  }

  lemma SubmitterKeepsAccounts(p: Pool, i: nat, spurious: bool)
    requires Accounts(p) && i < |p.submitters|
    ensures Accounts(StepSubmitter(p, i, spurious))
  {
    SubmitterFrame(p, i, spurious);
    hide StepSubmitter, SubmittedExact, AcceptedExact, RejectedExact, SentExact, QueuedExact;
    SubmitterKeepsSubmitted(p, i, spurious);
    SubmitterKeepsAccepted(p, i, spurious);
    SubmitterKeepsRejected(p, i, spurious);
    SubmitterKeepsSent(p, i, spurious);
    SubmitterKeepsQueued(p, i, spurious);
  }

  lemma WorkerKeepsAccounts(p: Pool, i: nat, ok: bool, spurious: bool)
    requires Accounts(p) && i < |p.workers|
    ensures Accounts(StepWorker(p, i, ok, spurious))
  {
    WorkerFrame(p, i, ok, spurious);
    hide StepWorker, StartedExact, HandledExact, OutcomesExact, ActiveExact, QueuedExact;
    WorkerKeepsStarted(p, i, ok, spurious);
    WorkerKeepsHandled(p, i, ok, spurious);
    WorkerKeepsOutcomes(p, i, ok, spurious);
    WorkerKeepsActive(p, i, ok, spurious);
    WorkerKeepsQueued(p, i, ok, spurious);
  }

  lemma SubmitterKeepsExits(p: Pool, i: nat, spurious: bool)
    requires ExitsLate(p) && i < |p.submitters|
    ensures ExitsLate(StepSubmitter(p, i, spurious))
  {
    hide Wrapped, RaiseStep;
  }

  lemma SubmitterKeepsDeliveries(p: Pool, i: nat, spurious: bool)
    requires Deliveries(p) && RejectedExact(p) && i < |p.submitters|
    ensures Deliveries(StepSubmitter(p, i, spurious))
  {
    SubmitterKeepsIds(p, i, spurious);
    SubmitterKeepsExits(p, i, spurious);
    SubmitterFrame(p, i, spurious);
    hide StepSubmitter, IdsUnique, ExitsLate, Times, Sum;
    assert EachReceivedOnce(StepSubmitter(p, i, spurious));
  }

  lemma WorkerKeepsDeliveries(p: Pool, i: nat, ok: bool, spurious: bool)
    requires Deliveries(p) && i < |p.workers|
    ensures Deliveries(StepWorker(p, i, ok, spurious))
  {
    WorkerKeepsReceivedOnce(p, i, ok, spurious);
    WorkerKeepsPostedOnce(p, i, ok, spurious);
    WorkerKeepsTakenOnce(p, i, ok, spurious);
    WorkerKeepsHonest(p, i, ok, spurious);
    WorkerKeepsExits(p, i, ok, spurious);
    WorkerFrame(p, i, ok, spurious);
    hide StepWorker, UniqueIds, EachReceivedOnce, EachPostedOnce, EachTakenOnce, ResultsHonest, ExitsLate;
  }

  function WithSubmitter(p: Pool): Pool {
    p.(submitters := p.submitters + [Entered])
  }

  lemma EnterKeepsAccounts(p: Pool)
    requires Accounts(p)
    ensures Accounts(WithSubmitter(p))
  {
    SumAppend(p.submitters, Entered, NotCounted);
    SumAppend(p.submitters, Entered, NotAccepted);
    SumAppend(p.submitters, Entered, ReturnedFull);
    SumAppend(p.submitters, Entered, ReturnedClosed);
    SumAppend(p.submitters, Entered, PastSend);
    SumAppend(p.submitters, Entered, NotQueued);
    hide Sum, Wrapped;
  }

  lemma EnterKeepsIds(p: Pool)
    requires IdsUnique(p)
    ensures IdsUnique(WithSubmitter(p))
  {
    var submitters' := p.submitters + [Entered];
    forall k | 0 <= k < |p.sent|
      ensures SentBySomeone(submitters', p.sent[k])
    {
      assert SentBySomeone(p.submitters, p.sent[k]);
      var i :| 0 <= i < |p.submitters| && PastSend(p.submitters[i]) == 1 && p.submitters[i].id == p.sent[k];
      assert submitters'[i] == p.submitters[i];
    }
  }

  lemma EnterKeepsExits(p: Pool)
    requires ExitsLate(p) && !p.closed
    ensures ExitsLate(WithSubmitter(p))
  {
  }

  lemma EnterKeepsDeliveries(p: Pool)
    requires Deliveries(p) && !p.closed
    ensures Deliveries(WithSubmitter(p))
  {
    EnterKeepsIds(p);
    EnterKeepsExits(p);
    hide UniqueIds, ExitsLate, Sum, Times;
  }

  function WithTaken(p: Pool, id: int): Pool {
    p.(results := p.results - {id}, taken := p.taken + [id])
  }

  lemma TakeKeepsTakenOnce(p: Pool, id: int)
    requires EachTakenOnce(p) && id in p.results
    ensures EachTakenOnce(WithTaken(p, id))
  {
  }

  lemma TakeKeepsAccounts(p: Pool, id: int)
    requires Accounts(p)
    ensures Accounts(WithTaken(p, id))
  {
    hide Sum, Wrapped;
  }

  lemma TakeKeepsInv(p: Pool, id: int)
    requires Inv(p) && id in p.results
    ensures Inv(WithTaken(p, id))
  {
    var p' := WithTaken(p, id);
    TakeKeepsAccounts(p, id);
    hide Accounts;
    TakeKeepsTakenOnce(p, id);
    assert EachReceivedOnce(p') && EachPostedOnce(p') && ResultsHonest(p') && ExitsLate(p') by {
      hide Sum, Times, UniqueIds, EachTakenOnce;
    }
    hide Accounts, EachReceivedOnce, EachPostedOnce, EachTakenOnce, UniqueIds, ResultsHonest, ExitsLate;
  }

  lemma CloseKeepsAccounts(p: Pool)
    requires Accounts(p)
    ensures Accounts(p.(closed := true))
  {
    hide Sum, Wrapped;
  }

  lemma CloseKeepsInv(p: Pool)
    requires Inv(p) && NoSubmitInProgress(p)
    ensures Inv(p.(closed := true))
  {
    CloseKeepsAccounts(p);
    hide Sum, Times, UniqueIds, Accounts;
  }

  lemma StepKeepsInv(p: Pool, a: Action)
    requires Inv(p)
    ensures Inv(Step(p, a))
  {
    match a
    case EnterSubmit =>
      if !p.closed {
        EnterKeepsAccounts(p);
        EnterKeepsDeliveries(p);
      }
    case SubmitterStep(i, spurious) =>
      if i < |p.submitters| {
        SubmitterKeepsAccounts(p, i, spurious);
        assert RejectedExact(p) by { hide Sum, Wrapped; }
        SubmitterKeepsDeliveries(p, i, spurious);
      }
    case WorkerStep(i, ok, spurious) =>
      if i < |p.workers| {
        WorkerKeepsAccounts(p, i, ok, spurious);
        WorkerKeepsDeliveries(p, i, ok, spurious);
      }
    case TakeResult(id) =>
      if id in p.results {
        TakeKeepsInv(p, id);
      }
    case ClosePool =>
      if NoSubmitInProgress(p) {
        CloseKeepsInv(p);
      }
    hide Accounts, Deliveries, StepSubmitter, StepWorker, NoSubmitInProgress;
  }

  lemma NewPoolAccounts(workerCount: nat, capacity: nat)
    requires workerCount < TWO_POW_64
    ensures Accounts(NewPool(workerCount, capacity))
  {
    RestingWorkersOwnNothing(NewPool(workerCount, capacity).workers);
  }

  lemma NewPoolJobs(workerCount: nat, capacity: nat)
    ensures var p := NewPool(workerCount, capacity); EachReceivedOnce(p) && EachPostedOnce(p)
  {
    RestingWorkersOwnNothing(NewPool(workerCount, capacity).workers);
    hide Sum;
  }

  lemma NewPoolDeliveries(workerCount: nat, capacity: nat)
    ensures Deliveries(NewPool(workerCount, capacity))
  {
    NewPoolJobs(workerCount, capacity);
    hide EachReceivedOnce, EachPostedOnce;
  }

  lemma NewPoolInv(workerCount: nat, capacity: nat)
    requires workerCount < TWO_POW_64
    ensures Inv(NewPool(workerCount, capacity))
  {
    NewPoolAccounts(workerCount, capacity);
    NewPoolDeliveries(workerCount, capacity);
    hide Accounts, Deliveries, NewPool;
  }

  /** Every state of every run satisfies the invariant. */
  lemma {:induction false} RunKeepsInv(workerCount: nat, capacity: nat, actions: seq<Action>)
    requires workerCount < TWO_POW_64
    ensures Inv(Run(NewPool(workerCount, capacity), actions))
  {
    hide Inv, Step, NewPool;
    if actions == [] {
      NewPoolInv(workerCount, capacity);
    } else {
      var front := actions[..|actions| - 1];
      RunKeepsInv(workerCount, capacity, front);
      StepKeepsInv(Run(NewPool(workerCount, capacity), front), actions[|actions| - 1]);
    }
  }

  /** Some run of a new pool ends here. */
  ghost predicate Reachable(p: Pool, workerCount: nat, capacity: nat) {
    0 < workerCount < TWO_POW_64 && exists actions :: p == Run(NewPool(workerCount, capacity), actions)
  }

  lemma ReachableKeepsInv(p: Pool, workerCount: nat, capacity: nat)
    requires Reachable(p, workerCount, capacity)
    ensures Inv(p) && |p.workers| == workerCount && p.capacity == capacity
  {
    var actions :| p == Run(NewPool(workerCount, capacity), actions);
    RunKeepsInv(workerCount, capacity, actions);
    RunKeepsShape(NewPool(workerCount, capacity), actions);
    hide Run, Inv;
  }

  /** No step changes how many workers there are or the size of the channel. */
  lemma StepKeepsShape(p: Pool, a: Action)
    ensures |Step(p, a).workers| == |p.workers| && Step(p, a).capacity == p.capacity
  {
    match a
    case SubmitterStep(i, spurious) =>
      if i < |p.submitters| {
        SubmitterFrame(p, i, spurious);
      }
    case WorkerStep(i, ok, spurious) =>
      if i < |p.workers| {
        WorkerFrame(p, i, ok, spurious);
      }
    case _ =>
    hide StepSubmitter, StepWorker, NoSubmitInProgress;
  }

  lemma {:induction false} RunKeepsShape(p: Pool, actions: seq<Action>)
    ensures |Run(p, actions).workers| == |p.workers| && Run(p, actions).capacity == p.capacity
  {
    if actions != [] {
      RunKeepsShape(p, actions[..|actions| - 1]);
      StepKeepsShape(Run(p, actions[..|actions| - 1]), actions[|actions| - 1]);
      hide Step;
    }
  }

  /** Only an owner whom no call borrows the pool from can close it, so no call meets a closed pool. */
  predicate NothingRefusedAsClosed(p: Pool) {
    && p.rejectedClosedJobs == 0
    && (p.closed ==> NoSubmitInProgress(p))
    && forall i :: 0 <= i < |p.submitters| ==>
         var s := p.submitters[i]; (s.Refused? ==> s.result == QueueFull) && (s.Returned? ==> s.result != Closed)
  }

  lemma SubmitterIsNotRefusedAsClosed(p: Pool, i: nat, spurious: bool)
    requires NothingRefusedAsClosed(p) && i < |p.submitters|
    ensures NothingRefusedAsClosed(StepSubmitter(p, i, spurious))
  {
    hide Wrapped, RaiseStep;
  }

  lemma {:induction false} NoCallIsRefusedAsClosed(workerCount: nat, capacity: nat, actions: seq<Action>)
    ensures NothingRefusedAsClosed(Run(NewPool(workerCount, capacity), actions))
  {
    if actions != [] {
      NoCallIsRefusedAsClosed(workerCount, capacity, actions[..|actions| - 1]);
      var p, a := Run(NewPool(workerCount, capacity), actions[..|actions| - 1]), actions[|actions| - 1];
      if a.SubmitterStep? && a.index < |p.submitters| {
        SubmitterIsNotRefusedAsClosed(p, a.index, a.spurious);
      }
      if a.WorkerStep? && a.index < |p.workers| {
        WorkerFrame(p, a.index, a.ok, a.spurious);
      }
      hide StepSubmitter, StepWorker;
    }
  }

  /** A worker that left does not come back. */
  lemma {:induction false} LeftForever(p: Pool, actions: seq<Action>, i: nat)
    requires i < |p.workers| && p.workers[i].Exited?
    ensures var p' := Run(p, actions); i < |p'.workers| && p'.workers[i].Exited?
  {
    if actions != [] {
      LeftForever(p, actions[..|actions| - 1], i);
      var q, a := Run(p, actions[..|actions| - 1]), actions[|actions| - 1];
      StepKeepsLeft(q, a, i);
      hide Step;
    }
  }

  lemma StepKeepsLeft(p: Pool, a: Action, i: nat)
    requires i < |p.workers| && p.workers[i].Exited?
    ensures i < |Step(p, a).workers| && Step(p, a).workers[i].Exited?
  {
    if a.SubmitterStep? && a.index < |p.submitters| {
      SubmitterFrame(p, a.index, a.spurious);
    }
    hide StepSubmitter, Wrapped, RaiseStep, NoSubmitInProgress;
  }

  // ---------------------------------------------------------------------------------------------
  // What follows
  // ---------------------------------------------------------------------------------------------

  /**
   * Exactly once, in every state of every run: a job id is sent at most once, received at most once, and then in the
   * hands of one worker or stored; what is stored is announced at most once and not before, and taken at most once.
   */
  lemma EachJobOnce(p: Pool, workerCount: nat, capacity: nat, id: int)
    requires Reachable(p, workerCount, capacity)
    ensures p.sent == p.received + p.channel
    ensures Times(p.sent, id) <= 1
    ensures Times(p.received, id) == Times(p.stored, id) + Sum(p.workers, HoldsJob(id))
    ensures Times(p.stored, id) == Times(p.posted, id) + Sum(p.workers, Announcing(id))
    ensures Times(p.stored, id) == Times(p.taken, id) + One(id in p.results)
    ensures id in p.results ==> (id, p.results[id]) in p.handled
  {
    ReachableKeepsInv(p, workerCount, capacity);
    hide Reachable, Accounts, Sum;
    TimesWithoutRepeats(p.sent, id);
    TimesWithoutRepeats(p.taken, id);
    assert multiset(p.sent) == multiset(p.received) + multiset(p.channel);
    SumNotNegative(p.workers, id);
    assert Times(p.received, id) == Times(p.stored, id) + Sum(p.workers, HoldsJob(id));
    TimesIsMembership(p.stored, id);
    hide Times;
  }

  lemma EachJobStoredOnce(p: Pool, workerCount: nat, capacity: nat, id: int)
    requires Reachable(p, workerCount, capacity)
    ensures Times(p.stored, id) <= 1
  {
    EachJobOnce(p, workerCount, capacity, id);
    ReachableKeepsInv(p, workerCount, capacity);
    SumNotNegative(p.workers, id);
    assert multiset(p.sent) == multiset(p.received) + multiset(p.channel);
    hide Reachable, Inv, Sum;
  }

  lemma TimesIsMembership(ids: seq<int>, id: int)
    ensures Times(ids, id) > 0 <==> id in ids
  {
    assert id in multiset(ids) <==> id in ids;
  }

  lemma SumNotNegative(workers: seq<Worker>, id: int)
    ensures 0 <= Sum(workers, HoldsJob(id)) && 0 <= Sum(workers, Announcing(id))
  {
    SumBounds(workers, HoldsJob(id));
    SumBounds(workers, Announcing(id));
  }

  /** No call is under way and no worker has work. */
  ghost predicate Quiescent(p: Pool) {
    && NoSubmitInProgress(p)
    && p.channel == []
    && (forall i :: 0 <= i < |p.workers| ==> p.workers[i].Idle? || p.workers[i].Exited?)
  }

  lemma {:induction false} ReturnedAddUp(submitters: seq<Submitter>)
    requires forall i :: 0 <= i < |submitters| ==> submitters[i].Returned?
    ensures |submitters| == Sum(submitters, PastSend) + Sum(submitters, ReturnedFull) + Sum(submitters, ReturnedClosed)
    ensures Sum(submitters, NotCounted) == Sum(submitters, NotAccepted) == Sum(submitters, NotQueued) == 0
  {
    if submitters != [] {
      assert submitters[0].Returned?;
      ReturnedAddUp(submitters[1..]);
    }
  }

  lemma {:induction false} OutcomesAddUp(handled: seq<(int, bool)>)
    ensures |handled| == Sum(handled, Succeeded) + Sum(handled, Errored)
  {
    if handled != [] {
      OutcomesAddUp(handled[1..]);
    }
  }

  lemma RestingWorkersOwnNothing(workers: seq<Worker>)
    requires forall i :: 0 <= i < |workers| ==> workers[i].Idle? || workers[i].Exited?
    ensures Sum(workers, StillQueued) == Sum(workers, NotStarted) == Sum(workers, Active) == 0
    ensures Sum(workers, Unhandled) == Sum(workers, SuccessUncounted) == Sum(workers, ErrorUncounted) == 0
    ensures forall id :: Sum(workers, HoldsJob(id)) == 0 && Sum(workers, Announcing(id)) == 0
  {
    SumZero(workers, StillQueued);
    SumZero(workers, NotStarted);
    SumZero(workers, Active);
    SumZero(workers, Unhandled);
    SumZero(workers, SuccessUncounted);
    SumZero(workers, ErrorUncounted);
    forall id
      ensures Sum(workers, HoldsJob(id)) == 0 && Sum(workers, Announcing(id)) == 0
    {
      SumZero(workers, HoldsJob(id));
      SumZero(workers, Announcing(id));
    }
  }

  lemma WrapSum(x: int, y: int, z: int)
    ensures Wrapped(x + y + z) == Wrapped(Wrapped(x) + Wrapped(y) + Wrapped(z))
  {
  }

  lemma RestingSubmittersBalance(p: Pool)
    requires NoSubmitInProgress(p) && SubmittedExact(p) && AcceptedExact(p) && RejectedExact(p) && SentExact(p)
    ensures p.acceptedJobs == Wrapped(|p.sent|)
    ensures p.submittedJobs == Wrapped(p.acceptedJobs + p.rejectedFullJobs + p.rejectedClosedJobs)
  {
    ReturnedAddUp(p.submitters);
    hide Sum;
    WrapSum(Sum(p.submitters, PastSend), Sum(p.submitters, ReturnedFull), Sum(p.submitters, ReturnedClosed));
    hide Wrapped;
  }

  lemma RestingWorkersBalance(p: Pool)
    requires Quiescent(p) && QueuedExact(p) && StartedExact(p) && HandledExact(p) && OutcomesExact(p) && ActiveExact(p)
    ensures p.startedJobs == Wrapped(|p.received|) == Wrapped(p.successJobs + p.errorJobs)
    ensures p.queuedJobs == 0 && p.activeJobs == 0
  {
    ReturnedAddUp(p.submitters);
    RestingWorkersOwnNothing(p.workers);
    OutcomesAddUp(p.handled);
    hide Sum, Wrapped, NoSubmitInProgress;
    WrapSum(Sum(p.handled, Succeeded), Sum(p.handled, Errored), 0);
    WrapSmall(0);
  }

  lemma RestingPoolBalances(p: Pool)
    requires Inv(p) && Quiescent(p)
    ensures p.submittedJobs == Wrapped(p.acceptedJobs + p.rejectedFullJobs + p.rejectedClosedJobs)
    ensures p.acceptedJobs == p.startedJobs == Wrapped(p.successJobs + p.errorJobs)
    ensures p.queuedJobs == 0 && p.activeJobs == 0
  {
    hide Wrapped, Sum, SubmittedExact, AcceptedExact, RejectedExact, SentExact, QueuedExact, StartedExact;
    hide HandledExact, OutcomesExact, ActiveExact, NoSubmitInProgress;
    hide Times, IdsUnique, EachPostedOnce, EachTakenOnce, ResultsHonest, ExitsLate;
    assert p.sent == p.received;
    RestingSubmittersBalance(p);
    RestingWorkersBalance(p);
  }

  /** At rest every call was accepted or refused, and every accepted job was started and succeeded or failed. */
  lemma QuiescentCountersBalance(p: Pool, workerCount: nat, capacity: nat)
    requires Reachable(p, workerCount, capacity) && Quiescent(p)
    ensures p.submittedJobs == Wrapped(p.acceptedJobs + p.rejectedFullJobs + p.rejectedClosedJobs)
    ensures p.acceptedJobs == p.startedJobs == Wrapped(p.successJobs + p.errorJobs)
    ensures p.queuedJobs == 0 && p.activeJobs == 0
  {
    hide *;
    ReachableKeepsInv(p, workerCount, capacity);
    RestingPoolBalances(p);
  }

  /** At rest each accepted call's result was stored and announced, once each. */
  lemma RestingPoolStoredOnce(p: Pool, workerCount: nat, capacity: nat, i: nat)
    requires Reachable(p, workerCount, capacity) && Quiescent(p)
    requires i < |p.submitters| && p.submitters[i].Returned? && p.submitters[i].result == Accepted
    ensures Times(p.stored, p.submitters[i].id) == Times(p.posted, p.submitters[i].id) == 1
  {
    ReachableKeepsInv(p, workerCount, capacity);
    hide Reachable, Accounts;
    var id := p.submitters[i].id;
    RestingWorkersOwnNothing(p.workers);
    assert PastSend(p.submitters[i]) == 1;
    hide Sum;
    TimesWithoutRepeats(p.sent, id);
    assert p.sent == p.received;
    assert Times(p.received, id) == Times(p.stored, id) + Sum(p.workers, HoldsJob(id));
    assert Times(p.stored, id) == Times(p.posted, id) + Sum(p.workers, Announcing(id));
  }

  /**
   * Once the pool is closed and its workers are gone, which is what dropping it waits for, every accepted job has been
   * handled and announced: each accepted call's id was stored and posted once.
   */
  lemma DropLeavesNoJobBehind(p: Pool, workerCount: nat, capacity: nat, i: nat)
    requires Reachable(p, workerCount, capacity)
    requires p.closed && (forall w :: w in p.workers ==> w.Exited?)
    requires i < |p.submitters| && p.submitters[i].Returned? && p.submitters[i].result == Accepted
    ensures Quiescent(p)
    ensures Times(p.stored, p.submitters[i].id) == Times(p.posted, p.submitters[i].id) == 1
  {
    ReachableKeepsInv(p, workerCount, capacity);
    assert p.workers[0].Exited?;
    assert Quiescent(p) by { hide Reachable, Accounts; }
    RestingPoolStoredOnce(p, workerCount, capacity, i);
    hide *;
  }

  lemma WrapBelowZero(x: int)
    requires -TWO_POW_64 <= x < 0
    ensures Wrapped(x) == TWO_POW_64 + x
  {
  }

  /** What is in the channel or in the hands of a worker yet to decrement the queue counter. */
  function Present(p: Pool): int {
    |p.channel| + Sum(p.workers, StillQueued)
  }

  /** The calls whose job is in the channel or beyond it and that have not incremented the queue counter yet. */
  function Owed(p: Pool): int {
    Sum(p.submitters, NotQueued)
  }

  lemma QueueCounterValue(p: Pool)
    requires QueuedExact(p) && |p.submitters| < TWO_POW_64 && p.capacity + |p.workers| < TWO_POW_64
    ensures Present(p) >= Owed(p) ==> p.queuedJobs == Present(p) - Owed(p) <= p.capacity + |p.workers|
    ensures Present(p) < Owed(p) ==> p.queuedJobs == TWO_POW_64 - (Owed(p) - Present(p))
  {
    SumBounds(p.workers, StillQueued);
    SumBounds(p.submitters, NotQueued);
    hide Sum, Wrapped;
    var x := Present(p) - Owed(p);
    if x < 0 { WrapBelowZero(x); } else { WrapSmall(x); }
  }

  /**
   * The queue counter is what is in the channel and in the hands of workers yet to decrement it, less what submitters
   * owe; it wraps below zero exactly when workers decremented more jobs than submitters have counted.
   */
  lemma QueueCounterWrapsIffWorkersRanAhead(p: Pool, workerCount: nat, capacity: nat)
    requires Reachable(p, workerCount, capacity)
    requires capacity + workerCount < TWO_POW_64 && |p.submitters| < TWO_POW_64
    ensures Present(p) >= Owed(p) ==> p.queuedJobs == Present(p) - Owed(p) <= capacity + workerCount
    ensures Present(p) < Owed(p) ==> p.queuedJobs == TWO_POW_64 - (Owed(p) - Present(p))
  {
    ReachableKeepsInv(p, workerCount, capacity);
    hide *;
    AccountsQueued(p);
    QueueCounterValue(p);
  }

  /** This step is a call's increment, and even with it workers took off more jobs than calls have counted. */
  predicate CountsBelowZero(p: Pool, a: Action) {
    && a.SubmitterStep? && a.index < |p.submitters| && p.submitters[a.index].AcceptCounted?
    && Present(p) + 1 < Owed(p)
  }

  /** Some step of the run was such an increment. */
  predicate CountedBelowZero(p: Pool, actions: seq<Action>) {
    actions != [] &&
    var front := actions[..|actions| - 1];
    CountedBelowZero(p, front) || CountsBelowZero(Run(p, front), actions[|actions| - 1])
  }

  /** What a call proposes as maximum is above the bound exactly when its increment leaves the counter below zero. */
  lemma ProposalIsHighIffBelowZero(p: Pool, i: nat)
    requires QueuedExact(p) && i < |p.submitters| && p.submitters[i].AcceptCounted?
    requires |p.submitters| + p.capacity + |p.workers| < TWO_POW_64
    ensures Wrapped(p.queuedJobs + 1) > p.capacity + |p.workers| <==> Present(p) + 1 < Owed(p)
  {
    SumBounds(p.workers, StillQueued);
    SumBounds(p.submitters, NotQueued);
    SumPositive(p.submitters, i, NotQueued);
    var x := Present(p) - Owed(p);
    hide Sum, Wrapped;
    WrapStep(x, p.queuedJobs);
    if x + 1 < 0 { WrapBelowZero(x + 1); } else { WrapSmall(x + 1); }
  }

  predicate ProposesAbove(s: Submitter, bound: nat) {
    s.RaisingQueued? && s.raise.candidate > bound
  }

  /** Once an increment was below zero the maximum is above the bound or a call will raise it there; else neither is. */
  ghost predicate Peak(submitters: seq<Submitter>, highest: nat, bound: nat, below: bool) {
    && (forall i :: 0 <= i < |submitters| && submitters[i].RaisingQueued? ==>
          !submitters[i].raise.Raised? && RaiseInv(highest, submitters[i].raise))
    && (highest > bound ==> below)
    && (forall i :: 0 <= i < |submitters| && ProposesAbove(submitters[i], bound) ==> below)
    && (below ==> highest > bound || exists i :: 0 <= i < |submitters| && ProposesAbove(submitters[i], bound))
  }

  /** A call that is not raising the maximum moves on; `proposal` is what it proposes if it starts raising it. */
  lemma MoveKeepsPeak(submitters: seq<Submitter>, highest: nat, bound: nat, below: bool, i: nat, s': Submitter)
    requires Peak(submitters, highest, bound, below) && i < |submitters| && !submitters[i].RaisingQueued?
    requires s'.RaisingQueued? ==> s'.raise.Load?
    ensures Peak(submitters[i := s'], highest, bound, below || ProposesAbove(s', bound))
  {
    var submitters' := submitters[i := s'];
    if ProposesAbove(s', bound) {
      assert ProposesAbove(submitters'[i], bound);
    } else if below && highest <= bound {
      var j :| 0 <= j < |submitters| && ProposesAbove(submitters[j], bound);
      assert ProposesAbove(submitters'[j], bound);
    }
  }

  /** A call raising the maximum takes a step of its loop. */
  lemma RaiseKeepsPeak(submitters: seq<Submitter>, highest: nat, bound: nat, below: bool, i: nat, spurious: bool)
    requires Peak(submitters, highest, bound, below) && i < |submitters| && submitters[i].RaisingQueued?
    ensures var (highest', raise') := RaiseStep(highest, submitters[i].raise, spurious);
            var id := submitters[i].id;
            var s' := if raise'.Raised? then Returned(id, Accepted) else RaisingQueued(id, raise');
            Peak(submitters[i := s'], highest', bound, below)
  {
    var raise := submitters[i].raise;
    var (highest', raise') := RaiseStep(highest, raise, spurious);
    var id := submitters[i].id;
    var s' := if raise'.Raised? then Returned(id, Accepted) else RaisingQueued(id, raise');
    var submitters' := submitters[i := s'];
    RaiseStepIsMonotone(highest, raise, spurious, raise);
    forall j | 0 <= j < |submitters'| && submitters'[j].RaisingQueued?
      ensures RaiseInv(highest', submitters'[j].raise)
    {
      RaiseStepIsMonotone(highest, raise, spurious, submitters[j].raise);
    }
    hide RaiseStep;
    assert ProposesAbove(submitters[i], bound) <==> raise.candidate > bound;
    if below && highest' <= bound {
      var j :| 0 <= j < |submitters| && ProposesAbove(submitters[j], bound);
      assert ProposesAbove(submitters'[j], bound);
    }
  }

  lemma EnterKeepsPeak(submitters: seq<Submitter>, highest: nat, bound: nat, below: bool)
    requires Peak(submitters, highest, bound, below)
    ensures Peak(submitters + [Entered], highest, bound, below)
  {
    if below && highest <= bound {
      var j :| 0 <= j < |submitters| && ProposesAbove(submitters[j], bound);
      assert ProposesAbove((submitters + [Entered])[j], bound);
    }
  }

  lemma StepKeepsPeak(p: Pool, a: Action, below: bool)
    requires QueuedExact(p) && |p.submitters| + p.capacity + |p.workers| < TWO_POW_64
    requires Peak(p.submitters, p.maxQueuedJobs, p.capacity + |p.workers|, below)
    ensures var p' := Step(p, a);
            Peak(p'.submitters, p'.maxQueuedJobs, p.capacity + |p.workers|, below || CountsBelowZero(p, a))
  {
    var bound := p.capacity + |p.workers|;
    match a
    case EnterSubmit =>
      EnterKeepsPeak(p.submitters, p.maxQueuedJobs, bound, below);
    case SubmitterStep(i, spurious) =>
      if i < |p.submitters| {
        SubmitterKeepsPeak(p, i, spurious, below);
        hide StepSubmitter;
      }
    case WorkerStep(i, ok, spurious) =>
      hide RaiseStep, Wrapped;
    case _ =>
    hide Peak, StepSubmitter, QueuedExact;
  }

  lemma SubmitterKeepsPeak(p: Pool, i: nat, spurious: bool, below: bool)
    requires QueuedExact(p) && |p.submitters| + p.capacity + |p.workers| < TWO_POW_64 && i < |p.submitters|
    requires Peak(p.submitters, p.maxQueuedJobs, p.capacity + |p.workers|, below)
    ensures var p' := StepSubmitter(p, i, spurious);
            Peak(p'.submitters, p'.maxQueuedJobs, p.capacity + |p.workers|,
                 below || CountsBelowZero(p, SubmitterStep(i, spurious)))
  {
    var bound, s := p.capacity + |p.workers|, p.submitters[i];
    if s.AcceptCounted? {
      ProposalIsHighIffBelowZero(p, i);
    }
    if s.RaisingQueued? {
      RaiseKeepsPeak(p.submitters, p.maxQueuedJobs, bound, below, i, spurious);
    } else {
      MoveKeepsPeak(p.submitters, p.maxQueuedJobs, bound, below, i, NextSubmitter(p, s, spurious));
    }
    hide Peak, RaiseStep, Wrapped, QueuedExact, Present, Owed;
  }

  /** No step forgets a call. */
  lemma StepKeepsCalls(p: Pool, a: Action)
    ensures |Step(p, a).submitters| >= |p.submitters|
  {
    hide NoSubmitInProgress, RaiseStep, Wrapped;
  }

  lemma NewPoolPeak(workerCount: nat, capacity: nat)
    ensures var p := NewPool(workerCount, capacity);
            && Peak(p.submitters, p.maxQueuedJobs, capacity + workerCount, false)
            && |p.workers| == workerCount && p.capacity == capacity
  {
  }

  lemma {:induction false} RunKeepsPeak(workerCount: nat, capacity: nat, actions: seq<Action>)
    requires workerCount < TWO_POW_64
    requires |Run(NewPool(workerCount, capacity), actions).submitters| + capacity + workerCount < TWO_POW_64
    ensures var p := Run(NewPool(workerCount, capacity), actions);
            Peak(p.submitters, p.maxQueuedJobs, capacity + workerCount,
                 CountedBelowZero(NewPool(workerCount, capacity), actions))
  {
    hide Inv, QueuedExact, Peak, Step, CountsBelowZero, NewPool;
    var start := NewPool(workerCount, capacity);
    if actions == [] {
      NewPoolPeak(workerCount, capacity);
    } else {
      var front, a := actions[..|actions| - 1], actions[|actions| - 1];
      var p := Run(start, front);
      RunKeepsShape(start, front);
      RunKeepsInv(workerCount, capacity, front);
      AccountsQueued(p);
      StepKeepsCalls(p, a);
      NewPoolPeak(workerCount, capacity);
      RunKeepsPeak(workerCount, capacity, front);
      StepKeepsPeak(p, a, CountedBelowZero(start, front));
    }
  }

  lemma AccountsQueued(p: Pool)
    requires Inv(p)
    ensures QueuedExact(p)
  {
    hide QueuedExact, Deliveries, SubmittedExact, AcceptedExact, RejectedExact, SentExact, StartedExact;
    hide HandledExact, OutcomesExact, ActiveExact;
  }

  /**
   * The maximum means something exactly in the runs where workers never ran ahead: once no call is raising it any more,
   * it is at most what the channel and the workers can hold if and only if no call's increment left the counter below
   * zero.
   */
  lemma QueueMaximumBoundedIffNeverBelowZero(workerCount: nat, capacity: nat, actions: seq<Action>)
    requires var p := Run(NewPool(workerCount, capacity), actions);
             && |p.submitters| + capacity + workerCount < TWO_POW_64
             && forall i :: 0 <= i < |p.submitters| ==> !p.submitters[i].RaisingQueued?
    ensures Run(NewPool(workerCount, capacity), actions).maxQueuedJobs <= capacity + workerCount <==>
            !CountedBelowZero(NewPool(workerCount, capacity), actions)
  {
    RunKeepsPeak(workerCount, capacity, actions);
    hide Run, NewPool, CountedBelowZero;
  }

  /** Neither active counter ever passes the number of workers. */
  lemma ActiveStaysWithinWorkers(p: Pool, workerCount: nat, capacity: nat)
    requires Reachable(p, workerCount, capacity)
    ensures p.activeJobs == Sum(p.workers, Active) <= workerCount && p.maxActiveJobs <= workerCount
  {
    ReachableKeepsInv(p, workerCount, capacity);
    SumBounds(p.workers, Active);
    hide Reachable, Sum, Deliveries, SubmittedExact, AcceptedExact, RejectedExact, SentExact, QueuedExact, StartedExact;
    hide HandledExact, OutcomesExact;
  }

  /** The part of a state the queue counter and its maximum depend on. */
  predicate Looks(
    p: Pool, submitters: seq<Submitter>, workers: seq<Worker>, channel: seq<int>, queued: nat, highest: nat)
  {
    && !p.closed && p.capacity == 2
    && p.submitters == submitters && p.workers == workers && p.channel == channel
    && p.queuedJobs == queued && p.maxQueuedJobs == highest
  }

  /** The run as it unfolds from the first action. */
  function Fold(p: Pool, actions: seq<Action>): Pool
    decreases |actions|
  {
    if actions == [] then p else Fold(Step(p, actions[0]), actions[1..])
  }

  lemma {:induction false} RunAsFold(p: Pool, actions: seq<Action>)
    ensures Run(p, actions) == Fold(p, actions)
    decreases |actions|
  {
    hide Step;
    if |actions| > 0 {
      RunAsFold(Step(p, actions[0]), actions[1..]);
      RunCons(p, actions[0], actions[1..]);
      assert [actions[0]] + actions[1..] == actions;
    }
  }

  lemma {:induction false} RunCons(p: Pool, a: Action, actions: seq<Action>)
    ensures Run(p, [a] + actions) == Run(Step(p, a), actions)
  {
    hide Step;
    if actions == [] {
      assert [a] + actions == [a] && [a][..0] == [];
    } else {
      RunCons(p, a, actions[..|actions| - 1]);
      assert ([a] + actions)[..|actions|] == [a] + actions[..|actions| - 1];
    }
  }

  function Send(i: nat): seq<Action> {
    [SubmitterStep(i, false), SubmitterStep(i, false), SubmitterStep(i, false)]
  }

  function Two(a: Action): seq<Action> {
    [a, a]
  }

  lemma FoldTwo(p: Pool, a: Action)
    ensures Fold(p, Two(a)) == Step(Step(p, a), a)
  {
    hide Step;
    assert Fold(p, Two(a)) == Fold(Step(p, a), [a]);
    assert Fold(Step(p, a), [a]) == Fold(Step(Step(p, a), a), []);
  }

  lemma FoldSend(p: Pool, i: nat)
    ensures Fold(p, Send(i)) ==
            Step(Step(Step(p, SubmitterStep(i, false)), SubmitterStep(i, false)), SubmitterStep(i, false))
  {
    hide Step;
    var a := SubmitterStep(i, false);
    assert Fold(p, Send(i)) == Fold(Step(p, a), Two(a));
    FoldTwo(Step(p, a), a);
  }

  lemma {:induction false} FoldConcat(p: Pool, xs: seq<Action>, ys: seq<Action>)
    ensures Fold(p, xs + ys) == Fold(Fold(p, xs), ys)
    decreases |xs|
  {
    hide Step;
    if xs == [] {
      assert xs + ys == ys;
    } else {
      FoldConcat(Step(p, xs[0]), xs[1..], ys);
      assert (xs + ys)[1..] == xs[1..] + ys;
    }
  }

  /** A call runs up to its send and finds room. */
  lemma SendOne(p: Pool, i: nat, submitters: seq<Submitter>, channel: seq<int>, id: int)
    requires Looks(p, submitters, [Idle, Idle], channel, 0, 0) && p.nextId == id
    requires i < |submitters| && submitters[i] == Entered && |channel| < 2
    ensures var q := Fold(p, Send(i));
            Looks(q, submitters[i := Sent(id)], [Idle, Idle], channel + [id], 0, 0) && q.nextId == id + 1
  {
    FoldSend(p, i);
    hide Wrapped, RaiseStep, Fold, Send;
    var a := SubmitterStep(i, false);
    var p1 := Step(p, a);
    assert Looks(p1, submitters[i := Submitted], [Idle, Idle], channel, 0, 0) && p1.nextId == id;
    var p2 := Step(p1, a);
    assert p2.submitters == submitters[i := Submitted][i := Numbered(id)] == submitters[i := Numbered(id)];
    assert Looks(p2, submitters[i := Numbered(id)], [Idle, Idle], channel, 0, 0) && p2.nextId == id + 1;
    var p3 := Step(p2, a);
    assert p3.submitters == submitters[i := Numbered(id)][i := Sent(id)] == submitters[i := Sent(id)];
  }

  lemma TwoEnter()
    ensures var p := Fold(NewPool(2, 2), Two(EnterSubmit));
            Looks(p, [Entered, Entered], [Idle, Idle], [], 0, 0) && p.nextId == 1
  {
    FoldTwo(NewPool(2, 2), EnterSubmit);
    hide Fold, Two;
  }

  /** Two jobs are sent and neither call has counted anything. */
  lemma BothJobsAreSent() returns (p: Pool)
    ensures p == Fold(Fold(Fold(NewPool(2, 2), Two(EnterSubmit)), Send(0)), Send(1))
    ensures Looks(p, [Sent(1), Sent(2)], [Idle, Idle], [1, 2], 0, 0)
  {
    hide Fold, Send, Two, NewPool, Looks;
    var p0 := Fold(NewPool(2, 2), Two(EnterSubmit));
    TwoEnter();
    SendOne(p0, 0, [Entered, Entered], [], 1);
    assert [Entered, Entered][0 := Sent(1)] == [Sent(1), Entered] && [] + [1] == [1];
    SendOne(Fold(p0, Send(0)), 1, [Sent(1), Entered], [1], 2);
    assert [Sent(1), Entered][1 := Sent(2)] == [Sent(1), Sent(2)] && [1] + [2] == [1, 2];
    p := Fold(Fold(p0, Send(0)), Send(1));
  }

  /** Both workers take a job and decrement; only then the first call increments and raises the maximum. */
  lemma WorkersRunAhead(p: Pool) returns (q: Pool)
    requires Looks(p, [Sent(1), Sent(2)], [Idle, Idle], [1, 2], 0, 0)
    ensures q == Fold(Fold(Fold(Fold(p, Two(WorkerStep(0, true, false))), Two(WorkerStep(1, true, false))),
                           Two(SubmitterStep(0, false))), Two(SubmitterStep(0, false)))
    ensures q.maxQueuedJobs == TWO_POW_64 - 1
  {
    var top := TWO_POW_64 - 1;
    FoldTwo(p, WorkerStep(0, true, false));
    var p4 := Fold(p, Two(WorkerStep(0, true, false)));
    assert Looks(p4, [Sent(1), Sent(2)], [Dequeued(1), Idle], [2], top, 0);
    FoldTwo(p4, WorkerStep(1, true, false));
    var p5 := Fold(p4, Two(WorkerStep(1, true, false)));
    assert Looks(p5, [Sent(1), Sent(2)], [Dequeued(1), Dequeued(2)], [], top - 1, 0);
    FoldTwo(p5, SubmitterStep(0, false));
    var p6 := Fold(p5, Two(SubmitterStep(0, false)));
    assert Looks(p6, [RaisingQueued(1, Load(top)), Sent(2)], [Dequeued(1), Dequeued(2)], [], top, 0);
    FoldTwo(p6, SubmitterStep(0, false));
    q := Fold(p6, Two(SubmitterStep(0, false)));
  }

  /**
   * The maximum is no bound on anything: with two workers and a queue of two jobs it can come to rest at 2^64 - 1.
   * Both jobs are sent and received, both workers decrement the counter, and only then the first call increments it.
   */
  lemma QueueMaximumCanBeMeaningless() returns (p: Pool)
    ensures Reachable(p, 2, 2) && p.maxQueuedJobs == TWO_POW_64 - 1
  {
    var sent := BothJobsAreSent();
    p := WorkersRunAhead(sent);
    hide *;
    var a1 := Two(EnterSubmit) + Send(0);
    var a2 := a1 + Send(1);
    var a3 := a2 + Two(WorkerStep(0, true, false));
    var a4 := a3 + Two(WorkerStep(1, true, false));
    var a5 := a4 + Two(SubmitterStep(0, false));
    FoldConcat(NewPool(2, 2), Two(EnterSubmit), Send(0));
    FoldConcat(NewPool(2, 2), a1, Send(1));
    FoldConcat(NewPool(2, 2), a2, Two(WorkerStep(0, true, false)));
    FoldConcat(NewPool(2, 2), a3, Two(WorkerStep(1, true, false)));
    FoldConcat(NewPool(2, 2), a4, Two(SubmitterStep(0, false)));
    FoldConcat(NewPool(2, 2), a5, Two(SubmitterStep(0, false)));
    FoldIsReachable(2, 2, a5 + Two(SubmitterStep(0, false)));
  }

  lemma FoldIsReachable(workerCount: nat, capacity: nat, actions: seq<Action>)
    requires 0 < workerCount < TWO_POW_64
    ensures Reachable(Fold(NewPool(workerCount, capacity), actions), workerCount, capacity)
  {
    RunAsFold(NewPool(workerCount, capacity), actions);
    hide Fold, Run, NewPool;
  }

  // ---------------------------------------------------------------------------------------------
  // The pool object, one uninterrupted call or worker turn at a time
  // ---------------------------------------------------------------------------------------------

  lemma FoldOne(p: Pool, actions: seq<Action>, a: Action)
    ensures Fold(p, actions + [a]) == Step(Fold(p, actions), a)
  {
    hide Step;
    FoldConcat(p, actions, [a]);
    assert Fold(Fold(p, actions), [a]) == Fold(Step(Fold(p, actions), a), []);
  }

  /** `p` after a call entered and reached its send, whether or not that succeeded. */
  function AfterSend(p: Pool): Pool {
    var q := p.(submittedJobs := Wrapped(p.submittedJobs + 1), nextId := p.nextId + 1);
    if |p.channel| >= p.capacity then q.(submitters := p.submitters + [Refused(p.nextId, QueueFull)])
    else q.(submitters := p.submitters + [Sent(p.nextId)], channel := p.channel + [p.nextId],
            sent := p.sent + [p.nextId])
  }

  /** `p` after a whole call. */
  function AfterSubmit(p: Pool): Pool {
    var q := AfterSend(p);
    if |p.channel| >= p.capacity then
      q.(submitters := p.submitters + [Returned(p.nextId, QueueFull)],
         rejectedFullJobs := Wrapped(p.rejectedFullJobs + 1))
    else
      var queued := Wrapped(p.queuedJobs + 1);
      q.(submitters := p.submitters + [Returned(p.nextId, Accepted)],
         acceptedJobs := Wrapped(p.acceptedJobs + 1), queuedJobs := queued,
         maxQueuedJobs := Max(p.maxQueuedJobs, queued))
  }

  lemma ReplaceLast<T>(threads: seq<T>, t: T, t': T)
    ensures (threads + [t])[|threads| := t'] == threads + [t']
  {
  }

  lemma SendUninterrupted(p: Pool)
    requires !p.closed
    ensures var i := |p.submitters|;
            Step(Step(Step(Step(p, EnterSubmit), SubmitterStep(i, false)), SubmitterStep(i, false)),
                 SubmitterStep(i, false)) == AfterSend(p)
  {
    hide Wrapped;
    var i := |p.submitters|;
    var p1 := Step(p, EnterSubmit);
    var p2 := Step(p1, SubmitterStep(i, false));
    ReplaceLast(p.submitters, Entered, Submitted);
    var p3 := Step(p2, SubmitterStep(i, false));
    ReplaceLast(p.submitters, Submitted, Numbered(p.nextId));
    var p4 := Step(p3, SubmitterStep(i, false));
    ReplaceLast(p.submitters, Numbered(p.nextId), Sent(p.nextId));
    ReplaceLast(p.submitters, Numbered(p.nextId), Refused(p.nextId, QueueFull));
  }

  /** The rest of an accepted call: count it, count it as queued, and raise the maximum. */
  lemma AcceptUninterrupted(p: Pool) returns (actions: seq<Action>)
    requires |p.channel| < p.capacity
    ensures Fold(AfterSend(p), actions) == AfterSubmit(p)
  {
    hide Wrapped;
    var i := |p.submitters|;
    var id, queued := p.nextId, Wrapped(p.queuedJobs + 1);
    var a := SubmitterStep(i, false);
    var p1 := Step(Step(AfterSend(p), a), a);
    ReplaceLast(p.submitters, Sent(id), AcceptCounted(id));
    ReplaceLast(p.submitters, AcceptCounted(id), RaisingQueued(id, Load(queued)));
    ReplaceLast(p.submitters, RaisingQueued(id, Load(queued)), Returned(id, Accepted));
    assert p1.submitters == p.submitters + [RaisingQueued(id, Load(queued))];
    FoldTwo(AfterSend(p), a);
    if queued <= p.maxQueuedJobs {
      FoldOne(AfterSend(p), Two(a), a);
      actions := Two(a) + [a];
    } else {
      var p2 := Step(p1, a);
      ReplaceLast(p.submitters, RaisingQueued(id, Load(queued)), RaisingQueued(id, Try(queued, p.maxQueuedJobs)));
      ReplaceLast(p.submitters, RaisingQueued(id, Try(queued, p.maxQueuedJobs)), Returned(id, Accepted));
      assert p2.submitters == p.submitters + [RaisingQueued(id, Try(queued, p.maxQueuedJobs))];
      FoldOne(AfterSend(p), Two(a), a);
      FoldOne(AfterSend(p), Two(a) + [a], a);
      actions := Two(a) + [a] + [a];
    }
  }

  lemma RefuseUninterrupted(p: Pool)
    requires |p.channel| >= p.capacity
    ensures Fold(AfterSend(p), [SubmitterStep(|p.submitters|, false)]) == AfterSubmit(p)
  {
    hide Wrapped;
    var a := SubmitterStep(|p.submitters|, false);
    ReplaceLast(p.submitters, Refused(p.nextId, QueueFull), Returned(p.nextId, QueueFull));
    assert Fold(AfterSend(p), [a]) == Fold(Step(AfterSend(p), a), []);
  }

  lemma SubmitUninterrupted(p: Pool) returns (actions: seq<Action>)
    requires !p.closed
    ensures Fold(p, actions) == AfterSubmit(p)
  {
    SendUninterrupted(p);
    if |p.channel| >= p.capacity {
      RefuseUninterrupted(p);
      actions := [SubmitterStep(|p.submitters|, false)];
    } else {
      actions := AcceptUninterrupted(p);
    }
    hide Step, AfterSend, AfterSubmit;
    var a := SubmitterStep(|p.submitters|, false);
    var enter := [EnterSubmit] + Send(|p.submitters|);
    assert Fold(p, [EnterSubmit]) == Fold(Step(p, EnterSubmit), []);
    FoldConcat(p, [EnterSubmit], Send(|p.submitters|));
    FoldSend(Step(p, EnterSubmit), |p.submitters|);
    FoldConcat(p, enter, actions);
    actions := enter + actions;
  }

  /** `p` after a worker took the next job and took it off the queue counter. */
  function AfterDequeue(p: Pool, i: nat): Pool
    requires i < |p.workers| && p.channel != []
  {
    p.(workers := p.workers[i := Dequeued(p.channel[0])], channel := p.channel[1..],
       received := p.received + [p.channel[0]], queuedJobs := Wrapped(p.queuedJobs - 1))
  }

  /** ... and counted the job as started and itself as active. */
  function AfterReceive(p: Pool, i: nat): Pool
    requires i < |p.workers| && p.channel != []
  {
    var active := Wrapped(p.activeJobs + 1);
    AfterDequeue(p, i).(workers := p.workers[i := RaisingActive(p.channel[0], Load(active))],
                        startedJobs := Wrapped(p.startedJobs + 1), activeJobs := active)
  }

  /** ... and raised the maximum. */
  function AfterStart(p: Pool, i: nat): Pool
    requires i < |p.workers| && p.channel != []
  {
    AfterReceive(p, i).(workers := p.workers[i := Running(p.channel[0])],
                        maxActiveJobs := Max(p.maxActiveJobs, Wrapped(p.activeJobs + 1)))
  }

  /** ... and counted how the job ended. */
  function AfterOutcome(p: Pool, i: nat, ok: bool): Pool
    requires i < |p.workers| && p.channel != []
  {
    var id := p.channel[0];
    AfterStart(p, i).(workers := p.workers[i := OutcomeCounted(id, ok)], handled := p.handled + [(id, ok)],
                      successJobs := CountIf(ok, p.successJobs), errorJobs := CountIf(!ok, p.errorJobs))
  }

  /** `p` after a worker's whole turn. */
  function AfterTurn(p: Pool, i: nat, ok: bool): Pool
    requires i < |p.workers| && p.channel != []
  {
    var id := p.channel[0];
    AfterOutcome(p, i, ok).(workers := p.workers[i := Idle], activeJobs := Wrapped(Wrapped(p.activeJobs + 1) - 1),
                            results := p.results[id := ok], stored := p.stored + [id], posted := p.posted + [id])
  }

  lemma DequeueUninterrupted(p: Pool, i: nat)
    requires i < |p.workers| && p.workers[i].Idle? && p.channel != []
    ensures Fold(p, Two(WorkerStep(i, true, false))) == AfterDequeue(p, i)
  {
    hide Wrapped;
    var a, id := WorkerStep(i, true, false), p.channel[0];
    var p1 := p.(workers := p.workers[i := Received(id)], channel := p.channel[1..], received := p.received + [id]);
    assert Step(p, a) == p1;
    assert Step(p1, a) == AfterDequeue(p, i) by {
      assert p.workers[i := Received(id)][i := Dequeued(id)] == p.workers[i := Dequeued(id)];
    }
    hide Step, AfterDequeue;
    FoldTwo(p, a);
  }

  lemma CountUninterrupted(p: Pool, i: nat)
    requires i < |p.workers| && p.channel != []
    ensures Fold(AfterDequeue(p, i), Two(WorkerStep(i, true, false))) == AfterReceive(p, i)
  {
    hide Wrapped;
    FoldTwo(AfterDequeue(p, i), WorkerStep(i, true, false));
  }

  lemma StartUninterrupted(p: Pool, i: nat) returns (actions: seq<Action>)
    requires i < |p.workers| && p.channel != []
    ensures Fold(AfterReceive(p, i), actions) == AfterStart(p, i)
  {
    hide Wrapped;
    var a := WorkerStep(i, true, false);
    var active := Wrapped(p.activeJobs + 1);
    var q := AfterReceive(p, i);
    if active <= p.maxActiveJobs {
      assert Fold(q, [a]) == Fold(Step(q, a), []);
      actions := [a];
    } else {
      FoldTwo(q, a);
      assert Step(q, a).workers == p.workers[i := RaisingActive(p.channel[0], Try(active, p.maxActiveJobs))];
      actions := Two(a);
    }
  }

  lemma FinishUninterrupted(p: Pool, i: nat, ok: bool) returns (actions: seq<Action>)
    requires i < |p.workers| && p.channel != []
    ensures Fold(AfterStart(p, i), actions) == AfterTurn(p, i, ok)
  {
    var a := WorkerStep(i, ok, false);
    var q := AfterStart(p, i);
    OutcomeUninterrupted(p, i, ok);
    AnnounceUninterrupted(p, i, ok);
    hide *;
    FoldTwo(q, a);
    FoldTwo(AfterOutcome(p, i, ok), a);
    FoldConcat(q, Two(a), Two(a));
    FoldOne(q, Two(a) + Two(a), a);
    actions := Two(a) + Two(a) + [a];
  }

  lemma OutcomeUninterrupted(p: Pool, i: nat, ok: bool)
    requires i < |p.workers| && p.channel != []
    ensures var a := WorkerStep(i, ok, false); Step(Step(AfterStart(p, i), a), a) == AfterOutcome(p, i, ok)
  {
    hide Wrapped, RaiseStep;
    var id := p.channel[0];
    var q := Step(AfterStart(p, i), WorkerStep(i, ok, false));
    assert q.workers == p.workers[i := Handled(id, ok)];
  }

  lemma AnnounceUninterrupted(p: Pool, i: nat, ok: bool)
    requires i < |p.workers| && p.channel != []
    ensures var a := WorkerStep(i, ok, false); Step(Step(Step(AfterOutcome(p, i, ok), a), a), a) == AfterTurn(p, i, ok)
  {
    hide Wrapped, RaiseStep;
    var id, a := p.channel[0], WorkerStep(i, ok, false);
    var q := AfterOutcome(p, i, ok);
    OutcomeFrame(p, i, ok);
    hide AfterOutcome;
    var q1 := Step(q, a);
    assert q1 == q.(workers := p.workers[i := Stored(id)], results := p.results[id := ok], stored := p.stored + [id]);
    var q2 := Step(q1, a);
    assert q2 == q1.(workers := p.workers[i := Deactivated(id)], activeJobs := Wrapped(q.activeJobs - 1));
    assert Step(q2, a) == q2.(workers := p.workers[i := Idle], posted := p.posted + [id]);
  }

  lemma OutcomeFrame(p: Pool, i: nat, ok: bool)
    requires i < |p.workers| && p.channel != []
    ensures var q := AfterOutcome(p, i, ok);
            && q.workers == p.workers[i := OutcomeCounted(p.channel[0], ok)]
            && q.activeJobs == Wrapped(p.activeJobs + 1)
            && q.results == p.results && q.stored == p.stored && q.posted == p.posted
  {
    hide Wrapped;
  }

  lemma TurnUninterrupted(p: Pool, i: nat, ok: bool) returns (actions: seq<Action>)
    requires i < |p.workers| && p.workers[i].Idle? && p.channel != []
    ensures Fold(p, actions) == AfterTurn(p, i, ok)
  {
    DequeueUninterrupted(p, i);
    CountUninterrupted(p, i);
    var start := StartUninterrupted(p, i);
    var finish := FinishUninterrupted(p, i, ok);
    hide Step, AfterDequeue, AfterReceive, AfterStart, AfterTurn;
    var a := WorkerStep(i, true, false);
    FoldConcat(p, Two(a), Two(a));
    FoldConcat(p, Two(a) + Two(a), start);
    FoldConcat(p, Two(a) + Two(a) + start, finish);
    actions := Two(a) + Two(a) + start + finish;
  }

  datatype JobPoll = Success | Failure | Pending

  /** A step of each worker in turn, which lets an idle worker of a closed, drained pool leave. */
  lemma {:induction false} LeaveOneByOne(p: Pool, n: nat) returns (actions: seq<Action>)
    requires p.closed && p.channel == [] && n <= |p.workers| && AllIdle(p.workers)
    ensures Fold(p, actions) == p.(workers := seq(n, _ => Exited) + p.workers[n..])
  {
    if n == 0 {
      assert seq(0, _ => Exited) + p.workers[0..] == p.workers;
      actions := [];
    } else {
      var front := LeaveOneByOne(p, n - 1);
      var a := WorkerStep(n - 1, true, false);
      FoldOne(p, front, a);
      LeaveOne(p, n);
      hide Step;
      actions := front + [a];
    }
  }

  predicate AllIdle(workers: seq<Worker>) {
    forall i :: 0 <= i < |workers| ==> workers[i].Idle?
  }

  lemma LeaveOne(p: Pool, n: nat)
    requires p.closed && p.channel == [] && 0 < n <= |p.workers| && AllIdle(p.workers)
    ensures Step(p.(workers := seq(n - 1, _ => Exited) + p.workers[n - 1..]), WorkerStep(n - 1, true, false)) ==
            p.(workers := seq(n, _ => Exited) + p.workers[n..])
  {
    hide Wrapped, RaiseStep;
    var workers := seq(n - 1, _ => Exited) + p.workers[n - 1..];
    assert workers[n - 1] == p.workers[n - 1] && p.workers[n - 1].Idle?;
    assert workers[n - 1 := Exited] == seq(n, _ => Exited) + p.workers[n..];
  }

  /** A reachable state with nobody in the middle of anything; a closed pool is drained and its workers are gone. */
  ghost predicate Rests(p: Pool, workerCount: nat, capacity: nat) {
    && Reachable(p, workerCount, capacity)
    && NoSubmitInProgress(p)
    && (!p.closed ==> AllIdle(p.workers))
    && (p.closed ==> p.channel == [] && forall w :: w in p.workers ==> w.Exited?)
  }

  lemma NewPoolRests(workerCount: nat, capacity: nat)
    requires 0 < workerCount < TWO_POW_64
    ensures Rests(NewPool(workerCount, capacity), workerCount, capacity)
  {
    assert Run(NewPool(workerCount, capacity), []) == NewPool(workerCount, capacity);
    hide Run;
  }

  lemma ReachFurther(p: Pool, workerCount: nat, capacity: nat, actions: seq<Action>)
    requires Reachable(p, workerCount, capacity)
    ensures Reachable(Fold(p, actions), workerCount, capacity)
  {
    var before :| p == Run(NewPool(workerCount, capacity), before);
    RunAsFold(NewPool(workerCount, capacity), before);
    hide Run, NewPool;
    FoldConcat(NewPool(workerCount, capacity), before, actions);
    FoldIsReachable(workerCount, capacity, before + actions);
  }

  // ---------------------------------------------------------------------------------------------
  // No state is stuck
  // ---------------------------------------------------------------------------------------------

  /** How many more steps the loop takes at most if the cell is left alone. */
  function RaiseRank(r: Raise, value: nat): nat {
    match r
    case Load(_) => 3
    case Try(_, current) => if current == value then 1 else 2
    case Raised(_) => 0
  }

  lemma RaiseComesNearer(value: nat, r: Raise)
    ensures var (value', r') := RaiseStep(value, r, false);
            !r.Raised? ==> RaiseRank(r', value') < RaiseRank(r, value)
    ensures r.Raised? ==> RaiseStep(value, r, false).1.Raised?
  {
  }

  function SubmitterRank(p: Pool, s: Submitter): nat {
    match s
    case Entered => 9
    case Submitted => 8
    case Numbered(_) => 7
    case Sent(_) => 6
    case AcceptCounted(_) => 5
    case RaisingQueued(_, raise) => 1 + RaiseRank(raise, p.maxQueuedJobs)
    case Refused(_, _) => 1
    case Returned(_, _) => 0
  }

  lemma SubmitterComesNearer(p: Pool, i: nat)
    requires i < |p.submitters| && !p.submitters[i].Returned?
    ensures var q := Step(p, SubmitterStep(i, false));
            && |q.submitters| == |p.submitters| && q.workers == p.workers
            && q.submitters == p.submitters[i := q.submitters[i]]
            && SubmitterRank(q, q.submitters[i]) < SubmitterRank(p, p.submitters[i])
  {
    if p.submitters[i].RaisingQueued? {
      RaiseComesNearer(p.maxQueuedJobs, p.submitters[i].raise);
    }
    hide Wrapped, RaiseStep, RaiseRank;
  }

  /** A call that the other threads leave alone returns. */
  lemma {:induction false} SubmitterReturns(p: Pool, i: nat) returns (actions: seq<Action>)
    requires i < |p.submitters|
    ensures var q := Fold(p, actions);
            && |q.submitters| == |p.submitters| && q.workers == p.workers
            && q.submitters == p.submitters[i := q.submitters[i]] && q.submitters[i].Returned?
    decreases SubmitterRank(p, p.submitters[i])
  {
    hide SubmitterRank, Step;
    if p.submitters[i].Returned? {
      actions := [];
    } else {
      SubmitterComesNearer(p, i);
      var q := Step(p, SubmitterStep(i, false));
      var rest := SubmitterReturns(q, i);
      actions := [SubmitterStep(i, false)] + rest;
      FoldCons(p, SubmitterStep(i, false), rest);
      hide Fold;
    }
  }

  lemma FoldCons(p: Pool, a: Action, rest: seq<Action>)
    ensures Fold(p, [a] + rest) == Fold(Step(p, a), rest)
  {
    hide Step;
    assert ([a] + rest)[1..] == rest;
  }

  lemma {:induction false} SubmittersReturn(p: Pool, n: nat) returns (actions: seq<Action>)
    requires n <= |p.submitters|
    ensures var q := Fold(p, actions);
            && |q.submitters| == |p.submitters| && q.workers == p.workers
            && forall i :: 0 <= i < n ==> q.submitters[i].Returned?
    decreases n
  {
    if n == 0 {
      actions := [];
    } else {
      hide Fold;
      var front := SubmittersReturn(p, n - 1);
      var last := SubmitterReturns(Fold(p, front), n - 1);
      FoldConcat(p, front, last);
      actions := front + last;
    }
  }

  predicate AtRest(w: Worker) {
    w.Idle? || w.Exited?
  }

  function WorkerRank(p: Pool, w: Worker): nat {
    match w
    case Received(_) => 12
    case Dequeued(_) => 11
    case Started(_) => 10
    case RaisingActive(_, raise) => 6 + RaiseRank(raise, p.maxActiveJobs)
    case Running(_) => 5
    case Handled(_, _) => 4
    case OutcomeCounted(_, _) => 3
    case Stored(_) => 2
    case Deactivated(_) => 1
    case _ => 0
  }

  lemma WorkerComesNearer(p: Pool, i: nat)
    requires i < |p.workers| && !AtRest(p.workers[i])
    ensures var q := Step(p, WorkerStep(i, true, false));
            && |q.workers| == |p.workers| && q.submitters == p.submitters && q.channel == p.channel
            && q.workers == p.workers[i := q.workers[i]]
            && WorkerRank(q, q.workers[i]) < WorkerRank(p, p.workers[i])
  {
    if p.workers[i].RaisingActive? {
      RaiseComesNearer(p.maxActiveJobs, p.workers[i].raise);
    }
    hide Wrapped, RaiseStep, RaiseRank;
  }

  /** A worker that the other threads leave alone ends its turn. */
  lemma {:induction false} WorkerRests(p: Pool, i: nat) returns (actions: seq<Action>)
    requires i < |p.workers|
    ensures var q := Fold(p, actions);
            && |q.workers| == |p.workers| && q.submitters == p.submitters && q.channel == p.channel
            && q.workers == p.workers[i := q.workers[i]] && AtRest(q.workers[i])
    decreases WorkerRank(p, p.workers[i])
  {
    hide WorkerRank, Step;
    if AtRest(p.workers[i]) {
      actions := [];
    } else {
      WorkerComesNearer(p, i);
      var q := Step(p, WorkerStep(i, true, false));
      var rest := WorkerRests(q, i);
      actions := [WorkerStep(i, true, false)] + rest;
      FoldCons(p, WorkerStep(i, true, false), rest);
      hide Fold;
    }
  }

  lemma {:induction false} WorkersRest(p: Pool, n: nat) returns (actions: seq<Action>)
    requires n <= |p.workers|
    ensures var q := Fold(p, actions);
            && |q.workers| == |p.workers| && q.submitters == p.submitters && q.channel == p.channel
            && forall i :: 0 <= i < n ==> AtRest(q.workers[i])
    decreases n
  {
    if n == 0 {
      actions := [];
    } else {
      hide Fold;
      var front := WorkersRest(p, n - 1);
      var last := WorkerRests(Fold(p, front), n - 1);
      FoldConcat(p, front, last);
      actions := front + last;
    }
  }

  ghost predicate AllAtRest(workers: seq<Worker>) {
    forall i :: 0 <= i < |workers| ==> AtRest(workers[i])
  }

  /** An idle worker takes the oldest job. */
  lemma WorkerReceives(p: Pool)
    requires p.workers != [] && p.workers[0].Idle? && p.channel != []
    ensures var q := Step(p, WorkerStep(0, true, false));
            && q.submitters == p.submitters && q.channel == p.channel[1..]
            && q.workers == p.workers[0 := Received(p.channel[0])]
  {
    hide Wrapped, RaiseStep;
  }

  /** A worker that takes one job after the other empties the channel. */
  lemma {:induction false} ChannelDrains(p: Pool, workerCount: nat, capacity: nat) returns (actions: seq<Action>)
    requires Reachable(p, workerCount, capacity) && NoSubmitInProgress(p) && AllAtRest(p.workers)
    ensures var q := Fold(p, actions); Quiescent(q) && q.submitters == p.submitters
    decreases |p.channel|
  {
    if p.channel == [] {
      actions := [];
    } else {
      ReachableKeepsInv(p, workerCount, capacity);
      assert p.workers != [] && p.workers[0].Idle? by { hide Accounts, Reachable; }
      var a := WorkerStep(0, true, false);
      WorkerReceives(p);
      hide Step, Fold, Reachable, Inv;
      var turn := WorkerRests(Step(p, a), 0);
      FoldCons(p, a, turn);
      var q := Fold(p, [a] + turn);
      ReachFurther(p, workerCount, capacity, [a] + turn);
      var rest := ChannelDrains(q, workerCount, capacity);
      FoldConcat(p, [a] + turn, rest);
      actions := [a] + turn + rest;
    }
  }

  /**
   * No state is stuck: from every reachable state, whatever the threads are in the middle of, they can go on until
   * every call has returned, the channel is empty, and each accepted job's result was stored and announced once.
   */
  lemma NoStateIsStuck(p: Pool, workerCount: nat, capacity: nat) returns (actions: seq<Action>)
    requires Reachable(p, workerCount, capacity)
    ensures var q := Fold(p, actions);
            && Reachable(q, workerCount, capacity) && Quiescent(q) && |q.submitters| == |p.submitters|
            && forall i :: 0 <= i < |q.submitters| && q.submitters[i].result == Accepted ==>
                 Times(q.stored, q.submitters[i].id) == Times(q.posted, q.submitters[i].id) == 1
  {
    hide Fold, Reachable, Times;
    var returning := SubmittersReturn(p, |p.submitters|);
    var p1 := Fold(p, returning);
    var resting := WorkersRest(p1, |p1.workers|);
    var p2 := Fold(p1, resting);
    ReachFurther(p, workerCount, capacity, returning);
    ReachFurther(p1, workerCount, capacity, resting);
    var draining := ChannelDrains(p2, workerCount, capacity);
    ReachFurther(p2, workerCount, capacity, draining);
    FoldConcat(p, returning, resting);
    FoldConcat(p, returning + resting, draining);
    actions := returning + resting + draining;
    var q := Fold(p2, draining);
    forall i | 0 <= i < |q.submitters| && q.submitters[i].result == Accepted
      ensures Times(q.stored, q.submitters[i].id) == Times(q.posted, q.submitters[i].id) == 1
    {
      RestingPoolStoredOnce(q, workerCount, capacity, i);
    }
  }

  datatype Counters = Counters(
    submittedJobs: nat,
    acceptedJobs: nat,
    rejectedFullJobs: nat,
    startedJobs: nat,
    successJobs: nat,
    errorJobs: nat,
    queuedJobs: nat,
    activeJobs: nat,
    maxQueuedJobs: nat,
    maxActiveJobs: nat)

  function CountersOf(p: Pool): Counters {
    Counters(p.submittedJobs, p.acceptedJobs, p.rejectedFullJobs, p.startedJobs, p.successJobs, p.errorJobs,
             p.queuedJobs, p.activeJobs, p.maxQueuedJobs, p.maxActiveJobs)
  }

  /** What an uninterrupted call does to the counters. */
  function CountSubmit(c: Counters, accepted: bool): Counters {
    if accepted then
      var queued := Wrapped(c.queuedJobs + 1);
      c.(submittedJobs := Wrapped(c.submittedJobs + 1), acceptedJobs := Wrapped(c.acceptedJobs + 1),
         queuedJobs := queued, maxQueuedJobs := Max(c.maxQueuedJobs, queued))
    else
      c.(submittedJobs := Wrapped(c.submittedJobs + 1), rejectedFullJobs := Wrapped(c.rejectedFullJobs + 1))
  }

  /** What a worker's uninterrupted turn does to the counters: the active count goes up and down again. */
  function CountTurn(c: Counters, ok: bool): Counters {
    c.(queuedJobs := Wrapped(c.queuedJobs - 1), startedJobs := Wrapped(c.startedJobs + 1),
       maxActiveJobs := Max(c.maxActiveJobs, Wrapped(c.activeJobs + 1)),
       successJobs := if ok then Wrapped(c.successJobs + 1) else c.successJobs,
       errorJobs := if ok then c.errorJobs else Wrapped(c.errorJobs + 1))
  }

  lemma SubmitEffect(p: Pool)
    ensures var q := AfterSubmit(p);
            && CountersOf(q) == CountSubmit(CountersOf(p), |p.channel| < p.capacity)
            && q.results == p.results && q.closed == p.closed && q.nextId == p.nextId + 1
            && q.channel == (if |p.channel| < p.capacity then p.channel + [p.nextId] else p.channel)
  {
    hide Wrapped;
  }

  lemma TurnEffect(p: Pool, i: nat, ok: bool)
    requires i < |p.workers| && p.channel != [] && Wrapped(Wrapped(p.activeJobs + 1) - 1) == p.activeJobs
    ensures var q := AfterTurn(p, i, ok);
            && CountersOf(q) == CountTurn(CountersOf(p), ok)
            && q.results == p.results[p.channel[0] := ok] && q.channel == p.channel[1..]
            && q.closed == p.closed && q.nextId == p.nextId && q.sent == p.sent
  {
    hide Wrapped;
  }

  lemma SubmitRests(p: Pool, workerCount: nat, capacity: nat) returns (q: Pool)
    requires Rests(p, workerCount, capacity) && !p.closed
    ensures p.capacity == capacity
    ensures Rests(q, workerCount, capacity)
    ensures CountersOf(q) == CountSubmit(CountersOf(p), |p.channel| < capacity)
    ensures q.results == p.results && q.closed == p.closed && q.nextId == p.nextId + 1
    ensures q.channel == if |p.channel| < capacity then p.channel + [p.nextId] else p.channel
  {
    ReachableKeepsInv(p, workerCount, capacity);
    hide Reachable, Inv, Wrapped, Fold, CountersOf, CountSubmit;
    var actions := SubmitUninterrupted(p);
    SubmitEffect(p);
    ReachFurther(p, workerCount, capacity, actions);
    q := AfterSubmit(p);
  }

  lemma RestingPoolIsInactive(p: Pool, workerCount: nat, capacity: nat)
    requires Rests(p, workerCount, capacity) && p.channel != []
    ensures |p.workers| > 0
    ensures Wrapped(Wrapped(p.activeJobs + 1) - 1) == p.activeJobs
  {
    ReachableKeepsInv(p, workerCount, capacity);
    assert workerCount > 0;
    hide Inv, Sum;
    ActiveStaysWithinWorkers(p, workerCount, capacity);
    RestingWorkersOwnNothing(p.workers);
    hide Reachable;
  }

  lemma ActiveRoundTrip(p: Pool, workerCount: nat, capacity: nat)
    requires Rests(p, workerCount, capacity) && p.channel != []
    ensures var c := CountersOf(p); Wrapped(Wrapped(c.activeJobs + 1) - 1) == c.activeJobs
  {
    hide Rests, Wrapped;
    RestingPoolIsInactive(p, workerCount, capacity);
  }

  lemma TurnRests(p: Pool, workerCount: nat, capacity: nat, ok: bool) returns (q: Pool)
    requires Rests(p, workerCount, capacity) && p.channel != []
    ensures Rests(q, workerCount, capacity)
    ensures CountersOf(q) == CountTurn(CountersOf(p), ok)
    ensures q.results == p.results[p.channel[0] := ok] && q.channel == p.channel[1..]
    ensures q.closed == p.closed && q.nextId == p.nextId && q.sent == p.sent
  {
    RestingPoolIsInactive(p, workerCount, capacity);
    hide Reachable, Wrapped, Fold, CountersOf, CountTurn;
    var actions := TurnUninterrupted(p, 0, ok);
    TurnEffect(p, 0, ok);
    ReachFurther(p, workerCount, capacity, actions);
    q := AfterTurn(p, 0, ok);
  }

  lemma TakeRests(p: Pool, workerCount: nat, capacity: nat, id: int)
    requires Rests(p, workerCount, capacity) && id in p.results
    ensures Rests(WithTaken(p, id), workerCount, capacity)
  {
    assert Fold(p, [TakeResult(id)]) == Fold(Step(p, TakeResult(id)), []);
    ReachFurther(p, workerCount, capacity, [TakeResult(id)]);
    hide Reachable, Fold;
  }

  /** The owner drops the sender and every worker finds the channel closed and empty. */
  lemma LeaveRests(p: Pool, workerCount: nat, capacity: nat)
    requires Rests(p, workerCount, capacity) && !p.closed && p.channel == []
    ensures Rests(Left(p), workerCount, capacity)
  {
    var q := p.(closed := true);
    var actions := LeaveOneByOne(q, |p.workers|);
    assert Fold(p, [ClosePool] + actions) == Left(p) by {
      FoldConcat(p, [ClosePool], actions);
      assert Fold(p, [ClosePool]) == Fold(Step(p, ClosePool), []);
      assert seq(|p.workers|, _ => Exited) + p.workers[|p.workers|..] == seq(|p.workers|, _ => Exited);
    }
    ReachFurther(p, workerCount, capacity, [ClosePool] + actions);
    hide Reachable, Fold;
  }

  function Left(p: Pool): Pool {
    p.(closed := true, workers := seq(|p.workers|, _ => Exited))
  }

  /** A pool at rest whose workers left stored and announced every accepted job once, and its counters agree. */
  lemma LeftNothingBehind(p: Pool, workerCount: nat, capacity: nat)
    requires Rests(p, workerCount, capacity) && p.closed
    ensures p.acceptedJobs == p.startedJobs == Wrapped(p.successJobs + p.errorJobs)
    ensures forall id :: id in p.sent ==> id in p.results || id in p.taken
    ensures forall id :: id in p.results ==> (id, p.results[id]) in p.handled
  {
    QuiescentCountersBalance(p, workerCount, capacity);
    hide Wrapped, Reachable, Sum, Times;
    forall id | id in p.sent
      ensures id in p.results || id in p.taken
    {
      RestingWorkersOwnNothing(p.workers);
      EachJobOnce(p, workerCount, capacity, id);
      TimesIsMembership(p.sent, id);
      TimesIsMembership(p.taken, id);
    }
    forall id | id in p.results
      ensures (id, p.results[id]) in p.handled
    {
      EachJobOnce(p, workerCount, capacity, id);
    }
  }

  lemma LeaveDrained(p: Pool, workerCount: nat, capacity: nat) returns (q: Pool)
    requires Rests(p, workerCount, capacity) && !p.closed && p.channel == []
    ensures Rests(q, workerCount, capacity) && CountersOf(q) == CountersOf(p)
    ensures q.closed && q.channel == p.channel && q.results == p.results && q.nextId == p.nextId
    ensures var c := CountersOf(q); c.acceptedJobs == c.startedJobs == Wrapped(c.successJobs + c.errorJobs)
    ensures forall id :: id in p.sent ==> id in q.results || id in q.taken
  {
    q := Left(p);
    LeaveRests(p, workerCount, capacity);
    LeftNothingBehind(q, workerCount, capacity);
    hide Rests, Wrapped;
  }

  /** The object's fields. `state` is the step system's state; `Valid` says the fields are its fields. */
  class NativeJobPool {
    const workerCount: nat
    const capacity: nat
    var closed: bool
    var nextId: int
    var channel: seq<int>
    var results: map<int, bool>
    var counters: Counters
    ghost var state: Pool

    ghost predicate Valid()
      reads this
    {
      && Rests(state, workerCount, capacity)
      && state.closed == closed && state.nextId == nextId && state.channel == channel && state.results == results
      && CountersOf(state) == counters
    }

    constructor (workerCount: nat, capacity: nat)
      requires 0 < workerCount < TWO_POW_64 && 0 < capacity
      ensures Valid() && !closed && channel == [] && results == map[] && nextId == 1
      ensures this.workerCount == workerCount && this.capacity == capacity
    {
      this.workerCount, this.capacity := workerCount, capacity;
      closed, nextId, channel, results := false, 1, [], map[];
      counters := Counters(0, 0, 0, 0, 0, 0, 0, 0, 0, 0);
      state := NewPool(workerCount, capacity);
      new;
      NewPoolRests(workerCount, capacity);
      hide Rests;
    }

    /** A whole call of `submit`. */
    method Submit() returns (id: int, result: SubmitResult)
      requires Valid() && !closed
      modifies this
      ensures Valid() && !closed
      ensures id == old(nextId) && nextId == id + 1
      ensures result == if |old(channel)| < capacity then Accepted else QueueFull
      ensures channel == if result == Accepted then old(channel) + [id] else old(channel)
      ensures results == old(results) && counters == CountSubmit(old(counters), result == Accepted)
    {
      ghost var after := SubmitRests(state, workerCount, capacity);
      hide Rests, Wrapped, CountersOf;
      counters := counters.(submittedJobs := Wrapped(counters.submittedJobs + 1));
      id := nextId;
      nextId := nextId + 1;
      if |channel| < capacity {
        channel := channel + [id];
        CountAccepted();
        result := Accepted;
      } else {
        counters := counters.(rejectedFullJobs := Wrapped(counters.rejectedFullJobs + 1));
        result := QueueFull;
      }
      state := after;
    }

    method CountAccepted()
      modifies this`counters
      ensures var c, queued := old(counters), Wrapped(old(counters).queuedJobs + 1);
              counters == c.(acceptedJobs := Wrapped(c.acceptedJobs + 1), queuedJobs := queued,
                             maxQueuedJobs := Max(c.maxQueuedJobs, queued))
    {
      hide Wrapped;
      counters := counters.(acceptedJobs := Wrapped(counters.acceptedJobs + 1));
      counters := counters.(queuedJobs := Wrapped(counters.queuedJobs + 1));
      counters := counters.(maxQueuedJobs := Max(counters.maxQueuedJobs, counters.queuedJobs));
    }

    /** A worker's turn on the job at the head of the channel; `handler` says whether a job succeeds. */
    method Turn(handler: int -> bool) returns (id: int)
      requires Valid() && channel != []
      modifies this
      ensures Valid() && closed == old(closed)
      ensures id == old(channel)[0] && channel == old(channel)[1..]
      ensures results == old(results)[id := handler(id)] && nextId == old(nextId)
      ensures counters == CountTurn(old(counters), handler(id))
      ensures state.sent == old(state).sent
    {
      id := channel[0];
      var ok := handler(id);
      ghost var after := TurnRests(state, workerCount, capacity, ok);
      ActiveRoundTrip(state, workerCount, capacity);
      hide Rests, Wrapped, CountersOf;
      channel := channel[1..];
      CountTurnOnce(ok);
      results := results[id := ok];
      state := after;
    }

    /** The counter updates of a turn, in order. */
    method CountTurnOnce(ok: bool)
      requires Wrapped(Wrapped(counters.activeJobs + 1) - 1) == counters.activeJobs
      modifies this`counters
      ensures counters == CountTurn(old(counters), ok)
    {
      hide Wrapped;
      counters := counters.(queuedJobs := Wrapped(counters.queuedJobs - 1));
      counters := counters.(startedJobs := Wrapped(counters.startedJobs + 1));
      counters := counters.(activeJobs := Wrapped(counters.activeJobs + 1));
      counters := counters.(maxActiveJobs := Max(counters.maxActiveJobs, counters.activeJobs));
      if ok {
        counters := counters.(successJobs := Wrapped(counters.successJobs + 1));
      } else {
        counters := counters.(errorJobs := Wrapped(counters.errorJobs + 1));
      }
      counters := counters.(activeJobs := Wrapped(counters.activeJobs - 1));
    }

    /** A poll is pending until the job's result was stored and again once it was taken; otherwise it is what ran. */
    method Poll(id: int) returns (poll: JobPoll)
      requires Valid()
      ensures poll == Pending <==> id !in state.stored || id in state.taken
      ensures poll == Success ==> (id, true) in state.handled
      ensures poll == Failure ==> (id, false) in state.handled
    {
      EachJobOnce(state, workerCount, capacity, id);
      TimesIsMembership(state.stored, id);
      TimesIsMembership(state.taken, id);
      EachJobStoredOnce(state, workerCount, capacity, id);
      hide Rests, Times, Sum;
      if id !in results {
        return Pending;
      }
      poll := if results[id] then Success else Failure;
    }

    /** Hands a result out, once. */
    method Take(id: int) returns (result: Option<bool>)
      requires Valid()
      modifies this
      ensures Valid() && closed == old(closed) && channel == old(channel) && counters == old(counters)
      ensures result == if id in old(results) then Some(old(results)[id]) else None
      ensures results == old(results) - {id}
      ensures result.Some? ==> (id, result.value) in state.handled && id !in old(state).taken && id in state.taken
    {
      if id !in results {
        assert results - {id} == results;
        return None;
      }
      EachJobOnce(state, workerCount, capacity, id);
      TakeRests(state, workerCount, capacity, id);
      assert id !in state.taken by {
        TimesIsMembership(state.taken, id);
        TimesIsMembership(state.sent, id);
        ghost var p := state;
        ReachableKeepsInv(p, workerCount, capacity);
        hide Reachable, Accounts, UniqueIds, EachReceivedOnce, EachPostedOnce, ResultsHonest, ExitsLate;
      }
      hide Rests, Times, Sum;
      result := Some(results[id]);
      results := results - {id};
      state := WithTaken(state, id);
    }

    /** The workers take every job left, in order. */
    method Drain(handler: int -> bool)
      requires Valid() && !closed
      modifies this
      ensures Valid() && !closed && channel == [] && state.sent == old(state).sent
      ensures forall k :: 0 <= k < |old(channel)| ==> Ran(results, old(channel)[k], handler)
    {
      hide Rests, Wrapped, CountersOf, CountTurn;
      ghost var jobs := channel;
      ghost var sent := state.sent;
      var turns := 0;
      while channel != []
        invariant Valid() && !closed && turns <= |jobs| && channel == jobs[turns..] && state.sent == sent
        invariant forall k :: 0 <= k < turns ==> Ran(results, jobs[k], handler)
        decreases |channel|
        modifies this
      {
        var _ := Turn(handler);
        turns := turns + 1;
      }
    }

    /** Dropping the pool: the workers drain the channel and leave. Every accepted job is stored or was taken. */
    method Drop(handler: int -> bool)
      requires Valid() && !closed
      modifies this
      ensures Valid() && closed && channel == []
      ensures forall k :: 0 <= k < |old(channel)| ==> Ran(results, old(channel)[k], handler)
      ensures forall id :: id in old(state).sent ==> id in results || id in state.taken
      ensures counters.acceptedJobs == counters.startedJobs == Wrapped(counters.successJobs + counters.errorJobs)
    {
      hide Rests, Wrapped, CountersOf, Ran;
      Drain(handler);
      ghost var after := LeaveDrained(state, workerCount, capacity);
      closed := true;
      state := after;
    }
  }

  predicate Ran(results: map<int, bool>, id: int, handler: int -> bool) {
    id in results && results[id] == handler(id)
  }
}
