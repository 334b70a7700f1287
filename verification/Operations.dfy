/** Cancelling a transcription that another thread may be starting, reading for, or finishing. */
module Operations {
  import opened Common
  import ByteStream
  import PullReader

  // ---------------------------------------------------------------------------------------------
  // One operation
  // ---------------------------------------------------------------------------------------------

  /** Which callbacks the caller's descriptor has. A valid one may still lack `cancel`. */
  datatype Stream = Stream(valid: bool, hasCancel: bool, hasRelease: bool)

  datatype Pull = NullResult | Chunk(length: nat) | BadChunk | End | Failure

  /** How far the transcription call got. */
  datatype Phase =
    | Waiting
    | Begun
    | Admitted
    | Open
    | InRead(size: nat)
    | NextCheck(size: nat)
    | AboutToPull(size: nat)
    | Pulled(result: Pull)
    | DropChunk
    | DropRegistration
    | DropCancel
    | DropRelease
    | Leaving
    | Ended

  /** What the producer and the caller of the reader see, in order, and when the flag went up and the reader left. */
  datatype Event =
    | FlagRaised
    | ReadAdmitted
    | ReadRefused
    | Next(result: Pull)
    | Free
    | LeftRegistry
    | CancelStream
    | Release

  /**
   * `registered` and `active` are the registry's: the entry is there, and it holds this stream. `canceled` is the flag
   * the entry shares with the call. `adopted` and `served` are history: a reader was built, and it gave its caller so
   * many bytes.
   */
  datatype Operation = Operation(
    client: int,
    stream: Stream,
    registered: bool,
    active: bool,
    canceled: bool,
    phase: Phase,
    chunk: Option<nat>,
    completed: bool,
    adopted: bool,
    served: nat,
    log: seq<Event>)

  function NewOperation(client: int, stream: Stream): Operation {
    Operation(client, stream, true, false, false, Waiting, None, false, false, 0, [])
  }

  /** `cancel_operation_state`, under the lock: raise the flag, and cancel the stream the entry holds. */
  function CancelEntry(op: Operation): Operation {
    op.(canceled := true,
        log := Extended(Extended(op.log, if op.canceled then None else Some(FlagRaised)),
                        if op.active && op.stream.hasCancel then Some(CancelStream) else None))
  }

  predicate Unregistered(phase: Phase) {
    phase.DropCancel? || phase.DropRelease? || phase.Leaving? || phase.Ended?
  }

  /** What the environment decides at each step of the call. */
  datatype Choice = Choice(client: int, startRead: bool, bufferSize: nat, pull: Pull)

  /** Where the thread that runs the transcription call goes next. */
  function Goto(op: Operation, c: Choice): Phase {
    match op.phase
    case Waiting => if op.registered && op.client == c.client then Begun else Ended
    case Begun => if op.canceled then Leaving else Admitted
    case Admitted => if op.stream.valid && op.registered then Open else DropChunk
    case Open =>
      if !c.startRead then DropChunk else if op.canceled || c.bufferSize == 0 then Open else InRead(c.bufferSize)
    case InRead(size) => if op.chunk.Some? && op.chunk.value > 0 then Open else NextCheck(size)
    case NextCheck(size) => if op.canceled then Open else AboutToPull(size)
    case AboutToPull(size) =>
      if c.pull.NullResult? then Open else if c.pull.Chunk? then InRead(size) else Pulled(c.pull)
    case Pulled(_) => Open
    case DropChunk => DropRegistration
    case DropRegistration => DropCancel
    case DropCancel => DropRelease
    case DropRelease => Leaving
    case Leaving => Ended
    case Ended => Ended
  }

  /** The chunk in hand: taken from the producer, used up by reads, and given back when it is empty or dropped. */
  function ChunkAfter(op: Operation, c: Choice): Option<nat> {
    match op.phase
    case AboutToPull(_) => if c.pull.Chunk? then Some(c.pull.length) else op.chunk
    case InRead(size) =>
      if op.chunk.Some? && size < op.chunk.value then Some(op.chunk.value - size) else None
    case DropChunk => None
    case _ => op.chunk
  }

  function Move(op: Operation, c: Choice): Operation {
    op.(phase := Goto(op, c), chunk := ChunkAfter(op, c),
        completed := op.completed || op.phase == Pulled(End),
        adopted := op.adopted || op.phase.Admitted?,
        served := op.served + if op.phase.InRead? && op.chunk.Some? then Min(op.phase.size, op.chunk.value) else 0,
        registered := op.registered && !op.phase.Leaving?,
        active := (op.active || (op.phase.Admitted? && op.stream.valid && op.registered))
                  && !op.phase.DropRegistration? && !op.phase.Leaving?)
  }

  /** What it adds to the log. Registering a stream for a call already canceled cancels the stream at once. */
  function Logged(op: Operation, c: Choice): Option<Event> {
    match op.phase
    case Admitted =>
      if op.stream.valid && op.registered && op.canceled && op.stream.hasCancel then Some(CancelStream) else None
    case Open => if !c.startRead then None else Some(if op.canceled then ReadRefused else ReadAdmitted)
    case InRead(size) => if op.chunk.Some? && op.chunk.value <= size then Some(Free) else None
    case NextCheck(_) => if op.canceled then Some(ReadRefused) else None
    case AboutToPull(_) => Some(Next(c.pull))
    case Pulled(_) => Some(Free)
    case DropChunk => if op.chunk.Some? then Some(Free) else None
    case DropRegistration => Some(LeftRegistry)
    case DropCancel => if !op.completed && op.stream.hasCancel then Some(CancelStream) else None
    case DropRelease => if op.stream.hasRelease then Some(Release) else None
    case _ => None
  }

  function Extended(log: seq<Event>, e: Option<Event>): seq<Event> {
    if e.Some? then log + [e.value] else log
  }

  /** One step of the thread that runs the transcription call. */
  function Advance(op: Operation, c: Choice): Operation {
    Move(op, c).(log := Extended(op.log, Logged(op, c)))
  }

  // ---------------------------------------------------------------------------------------------
  // What holds of one operation
  // ---------------------------------------------------------------------------------------------

  function Count(log: seq<Event>, e: Event): nat {
    multiset(log)[e]
  }

  predicate Callback(e: Event) {
    e.Next? || e.Free? || e.CancelStream? || e.Release?
  }

  /** Nothing is called on a context that was released. */
  ghost predicate NothingAfterRelease(log: seq<Event>) {
    forall i, j :: 0 <= i < j < |log| && log[i] == Release ==> !Callback(log[j])
  }

  /** Once the flag is up no read is admitted. */
  ghost predicate NoReadAfterFlag(log: seq<Event>) {
    forall i, j :: 0 <= i < j < |log| && log[i] == FlagRaised ==> log[j] != ReadAdmitted
  }

  /** Results the producer handed out. */
  function Pulls(log: seq<Event>): nat {
    if log == [] then 0
    else Pulls(log[..|log| - 1]) + if log[|log| - 1].Next? && log[|log| - 1].result != NullResult then 1 else 0
  }

  /** Pulls made although the flag was already up. */
  function PullsAfterFlag(log: seq<Event>): nat {
    if log == [] then 0
    else PullsAfterFlag(log[..|log| - 1]) + if log[|log| - 1].Next? && FlagRaised in log[..|log| - 1] then 1 else 0
  }

  /** The flag went up only after the reader had left the registry. */
  predicate RaisedTooLate(log: seq<Event>) {
    log != [] &&
    var front, last := log[..|log| - 1], log[|log| - 1];
    RaisedTooLate(front) || (last == FlagRaised && LeftRegistry in front)
  }

  /** What one more event does to everything said about a log. */
  lemma Appended(log: seq<Event>, e: Event)
    ensures var log' := log + [e];
            && (FlagRaised in log' <==> FlagRaised in log || e == FlagRaised)
            && (Release in log' <==> Release in log || e == Release)
            && (LeftRegistry in log' <==> LeftRegistry in log || e == LeftRegistry)
            && (CancelStream in log' <==> CancelStream in log || e == CancelStream)
            && (Next(End) in log' <==> Next(End) in log || e == Next(End))
            && (ReadRefused in log' <==> ReadRefused in log || e == ReadRefused)
            && PulledBytes(log') == PulledBytes(log) + (if e.Next? && e.result.Chunk? then e.result.length else 0)
            && (RaisedTooLate(log') <==> RaisedTooLate(log) || (e == FlagRaised && LeftRegistry in log))
            && Count(log', Free) == Count(log, Free) + (if e == Free then 1 else 0)
            && Count(log', Release) == Count(log, Release) + (if e == Release then 1 else 0)
            && Pulls(log') == Pulls(log) + (if e.Next? && e.result != NullResult then 1 else 0)
            && PullsAfterFlag(log') == PullsAfterFlag(log) + (if e.Next? && FlagRaised in log then 1 else 0)
            && (NoReadAfterFlag(log') <==> NoReadAfterFlag(log) && !(FlagRaised in log && e == ReadAdmitted))
            && (NothingAfterRelease(log') <==> NothingAfterRelease(log) && !(Release in log && Callback(e)))
  {
    var log' := log + [e];
    assert log'[..|log|] == log;
    assert forall i :: 0 <= i < |log| ==> log'[i] == log[i];
  }

  predicate InReader(phase: Phase) {
    phase.Open? || phase.InRead? || phase.NextCheck? || phase.AboutToPull? || phase.Pulled?
  }

  predicate BeforeReader(phase: Phase) {
    phase.Waiting? || phase.Begun? || phase.Admitted?
  }

  /** The reader is being dropped and has not yet left the registry. */
  predicate StartsDrop(phase: Phase) {
    phase.DropChunk? || phase.DropRegistration?
  }

  function Held(op: Operation): nat {
    if op.chunk.Some? || op.phase.Pulled? then 1 else 0
  }

  function Releases(op: Operation): nat {
    if op.adopted && op.stream.hasRelease && (op.phase.Leaving? || op.phase.Ended?) then 1 else 0
  }

  /** The entry holds the stream only while it exists, from the reader's registration until the reader takes it back. */
  predicate RegistryInv(op: Operation) {
    && (op.active ==> op.registered && op.adopted && (InReader(op.phase) || StartsDrop(op.phase)))
    && (InReader(op.phase) ==> op.registered ==> op.active)
    && (StartsDrop(op.phase) && op.completed && op.registered ==> op.active)
    && (BeforeReader(op.phase) ==> !op.adopted)
    && (InReader(op.phase) || StartsDrop(op.phase) || op.phase.DropCancel? || op.phase.DropRelease? ==> op.adopted)
    && (op.phase.Ended? ==> !op.active)
    && (!op.adopted ==> !op.completed)
  }

  /** The fields that remember something agree with the log. */
  ghost predicate HistoryInv(op: Operation) {
    && (op.completed || op.phase == Pulled(End) ==> Next(End) in op.log)
    && (Next(End) in op.log ==> op.completed || op.phase == Pulled(End))
    && (LeftRegistry in op.log <==> op.adopted && Unregistered(op.phase))
    && (RaisedTooLate(op.log) ==> op.canceled && LeftRegistry in op.log)
    && (ReadRefused in op.log ==> op.canceled)
  }

  /** The bytes of the chunks the producer handed out. */
  function PulledBytes(log: seq<Event>): nat {
    if log == [] then 0
    else
      var last := log[|log| - 1];
      PulledBytes(log[..|log| - 1]) + if last.Next? && last.result.Chunk? then last.result.length else 0
  }

  /** Until the reader is dropped every byte pulled was served or is in hand; after that none is served any more. */
  ghost predicate BytesInv(op: Operation) {
    && op.served <= PulledBytes(op.log)
    && (BeforeReader(op.phase) || InReader(op.phase) || op.phase.DropChunk? ==>
          PulledBytes(op.log) == op.served + if op.chunk.Some? then op.chunk.value else 0)
  }

  /** At most one result is held, by one read at a time, and none once the chunk in hand was dropped. */
  predicate ChunkInv(op: Operation) {
    && (op.chunk.Some? ==> op.phase.Open? || op.phase.InRead? || op.phase.DropChunk?)
    && (op.chunk.Some? && !op.phase.InRead? ==> op.chunk.value > 0)
    && (op.phase.InRead? ==> op.phase.size > 0)
    && (op.phase.NextCheck? ==> op.phase.size > 0)
    && (op.phase.AboutToPull? ==> op.phase.size > 0)
  }

  ghost predicate LogInv(op: Operation) {
    && (op.canceled <==> FlagRaised in op.log)
    && NoReadAfterFlag(op.log) && NothingAfterRelease(op.log)
    && Count(op.log, Release) == Releases(op) && (Release in op.log <==> Releases(op) == 1)
    && Pulls(op.log) == Count(op.log, Free) + Held(op)
    && PullsAfterFlag(op.log) + (if op.phase.AboutToPull? && op.canceled then 1 else 0) <= 1
    && (!op.canceled ==> PullsAfterFlag(op.log) == 0)
  }

  /** When the producer has been told to stop. */
  ghost predicate CancelInv(op: Operation) {
    op.stream.hasCancel ==>
      && (BeforeReader(op.phase) || !op.adopted ==> CancelStream !in op.log)
      && (InReader(op.phase) ==> (CancelStream in op.log <==> op.canceled))
      && (StartsDrop(op.phase) || op.phase.DropCancel? ==>
            && (CancelStream in op.log ==> op.canceled && !RaisedTooLate(op.log))
            && (op.completed ==> (CancelStream in op.log <==> op.canceled && !RaisedTooLate(op.log))))
      && (op.adopted && (op.phase.DropRelease? || op.phase.Leaving? || op.phase.Ended?) ==>
            (CancelStream in op.log <==> !op.completed || (op.canceled && !RaisedTooLate(op.log))))
  }

  ghost predicate Inv(op: Operation) {
    RegistryInv(op) && ChunkInv(op) && HistoryInv(op) && BytesInv(op) && LogInv(op) && CancelInv(op)
  }

  lemma NewOperationInv(client: int, stream: Stream)
    ensures Inv(NewOperation(client, stream))
  {
  }

  lemma CancelKeepsInv(op: Operation)
    requires Inv(op) && op.registered
    ensures Inv(CancelEntry(op))
  {
    var log1 := Extended(op.log, if op.canceled then None else Some(FlagRaised));
    Appended(op.log, FlagRaised);
    Appended(log1, CancelStream);
    hide NoReadAfterFlag, NothingAfterRelease, Count, Pulls, PullsAfterFlag, RaisedTooLate, PulledBytes;
  }

  lemma MoveKeepsRegistry(op: Operation, c: Choice)
    requires RegistryInv(op)
    ensures RegistryInv(Move(op, c))
  {
  }

  lemma MoveKeepsChunk(op: Operation, c: Choice)
    requires ChunkInv(op)
    ensures ChunkInv(Move(op, c))
  {
  }

  /** What a step of each kind does to what the log has to agree with. */
  lemma MoveKeepsBooks(op: Operation, c: Choice)
    requires RegistryInv(op) && ChunkInv(op)
    ensures var op' := Move(op, c);
            var e := Logged(op, c);
            && op'.canceled == op.canceled
            && Releases(op') == Releases(op) + (if e == Some(Release) then 1 else 0)
            && Held(op') + (if e == Some(Free) then 1 else 0)
               == Held(op) + (if e.Some? && e.value.Next? && e.value.result != NullResult then 1 else 0)
            && (e == Some(ReadAdmitted) ==> !op.canceled)
            && (e.Some? && Callback(e.value) ==> Releases(op) == 0)
            && e != Some(FlagRaised)
            && (e.Some? && e.value.Next? ==> op.phase.AboutToPull?)
            && (op'.phase.AboutToPull? ==> !op.canceled)
  {
  }

  lemma AdvanceKeepsLog(op: Operation, c: Choice)
    requires RegistryInv(op) && ChunkInv(op) && LogInv(op)
    ensures LogInv(Advance(op, c))
  {
    hide Move, Logged, NoReadAfterFlag, NothingAfterRelease, Count, Pulls, PullsAfterFlag;
    hide RegistryInv, ChunkInv;
    MoveKeepsBooks(op, c);
    if Logged(op, c).Some? {
      Appended(op.log, Logged(op, c).value);
    }
  }

  lemma AdvanceAddsToLog(op: Operation, c: Choice)
    ensures var log', e := Advance(op, c).log, Logged(op, c);
            && (LeftRegistry in log' <==> LeftRegistry in op.log || e == Some(LeftRegistry))
            && (CancelStream in log' <==> CancelStream in op.log || e == Some(CancelStream))
            && (Next(End) in log' <==> Next(End) in op.log || e == Some(Next(End)))
            && (ReadRefused in log' <==> ReadRefused in op.log || e == Some(ReadRefused))
            && PulledBytes(log') == PulledBytes(op.log) +
               (if e.Some? && e.value.Next? && e.value.result.Chunk? then e.value.result.length else 0)
            && (RaisedTooLate(log') <==> RaisedTooLate(op.log))
  {
    NeverLogsTheFlag(op, c);
    hide Move, Logged, NoReadAfterFlag, NothingAfterRelease, Count, Pulls, PullsAfterFlag, RaisedTooLate, PulledBytes;
    if Logged(op, c).Some? {
      Appended(op.log, Logged(op, c).value);
    }
  }

  lemma NeverLogsTheFlag(op: Operation, c: Choice)
    ensures Logged(op, c) != Some(FlagRaised)
  {
  }

  lemma AdvanceKeepsBytes(op: Operation, c: Choice)
    requires RegistryInv(op) && ChunkInv(op) && BytesInv(op)
    ensures BytesInv(Advance(op, c))
  {
    AdvanceAddsToLog(op, c);
    hide Extended, RaisedTooLate, PulledBytes;
  }

  lemma AdvanceKeepsHistory(op: Operation, c: Choice)
    requires RegistryInv(op) && HistoryInv(op)
    ensures HistoryInv(Advance(op, c))
  {
    AdvanceAddsToLog(op, c);
    hide Extended, RaisedTooLate, PulledBytes;
  }

  lemma AdvanceKeepsCancel(op: Operation, c: Choice)
    requires RegistryInv(op) && HistoryInv(op) && CancelInv(op)
    ensures CancelInv(Advance(op, c))
  {
    AdvanceAddsToLog(op, c);
    hide Extended, RaisedTooLate, PulledBytes;
  }

  lemma AdvanceKeepsInv(op: Operation, c: Choice)
    requires Inv(op)
    ensures Inv(Advance(op, c))
  {
    MoveKeepsRegistry(op, c);
    MoveKeepsChunk(op, c);
    AdvanceKeepsHistory(op, c);
    AdvanceKeepsBytes(op, c);
    AdvanceKeepsLog(op, c);
    AdvanceKeepsCancel(op, c);
    hide Move, Logged, Extended, HistoryInv, BytesInv, LogInv, CancelInv;
  }

  // ---------------------------------------------------------------------------------------------
  // The registry
  // ---------------------------------------------------------------------------------------------

  /** Every operation ever created; `registered` says which ones the map still holds. */
  datatype Registry = Registry(nextId: int, operations: map<int, Operation>)

  datatype Action =
    | CreateOperation(client: int, stream: Stream)
    | CancelOperation(id: int)
    | DiscardOperation(id: int)
    | DisposeClient(client: int)
    | AdvanceCall(id: int, choice: Choice)

  function Discard(op: Operation): Operation {
    op.(registered := false, active := false)
  }

  function DisposeEntry(op: Operation, client: int): Operation {
    if op.registered && op.client == client then CancelEntry(op) else op
  }

  function Step(r: Registry, a: Action): Registry {
    match a
    case CreateOperation(client, stream) =>
      Registry(r.nextId + 1, r.operations[r.nextId := NewOperation(client, stream)])
    case CancelOperation(id) =>
      if id in r.operations && r.operations[id].registered then
        r.(operations := r.operations[id := CancelEntry(r.operations[id])])
      else r
    case DiscardOperation(id) =>
      if id in r.operations then r.(operations := r.operations[id := Discard(r.operations[id])]) else r
    case DisposeClient(client) =>
      r.(operations := map id | id in r.operations :: DisposeEntry(r.operations[id], client))
    case AdvanceCall(id, choice) =>
      if id in r.operations then r.(operations := r.operations[id := Advance(r.operations[id], choice)]) else r
  }

  function Run(actions: seq<Action>): Registry {
    if actions == [] then Registry(1, map[]) else Step(Run(actions[..|actions| - 1]), actions[|actions| - 1])
  }

  lemma DiscardKeepsInv(op: Operation)
    requires Inv(op)
    ensures Inv(Discard(op))
  {
    hide NoReadAfterFlag, NothingAfterRelease, Count, Pulls, PullsAfterFlag;
  }

  /** Whatever threads and callers do, in whatever order, every operation keeps its invariant. */
  lemma {:induction false} RunKeepsInv(actions: seq<Action>, id: int)
    requires id in Run(actions).operations
    ensures Inv(Run(actions).operations[id])
  {
    hide Inv, NewOperation, CancelEntry, Discard, Advance;
    if actions != [] {
      var r, a := Run(actions[..|actions| - 1]), actions[|actions| - 1];
      if id in r.operations {
        RunKeepsInv(actions[..|actions| - 1], id);
        var op := r.operations[id];
        if op.registered {
          CancelKeepsInv(op);
        }
        DiscardKeepsInv(op);
        if a.AdvanceCall? {
          AdvanceKeepsInv(op, a.choice);
        }
      }
      if a.CreateOperation? {
        NewOperationInv(a.client, a.stream);
      }
    }
  }

  // ---------------------------------------------------------------------------------------------
  // What follows
  // ---------------------------------------------------------------------------------------------

  /** An operation of some run. */
  ghost predicate Reachable(op: Operation) {
    exists actions, id :: id in Run(actions).operations && Run(actions).operations[id] == op
  }

  lemma ReachableKeepsInv(op: Operation)
    requires Reachable(op)
    ensures Inv(op)
  {
    var actions, id :| id in Run(actions).operations && Run(actions).operations[id] == op;
    RunKeepsInv(actions, id);
  }

  /**
   * A reader that was built or rejected releases its producer exactly once, nothing is called on the context after
   * that, and each result was freed once, with never more than one held.
   */
  lemma ReleasedExactlyOnce(op: Operation)
    requires Reachable(op)
    ensures forall i, j :: 0 <= i < j < |op.log| && op.log[i] == Release ==>
              !op.log[j].Next? && op.log[j] != Free && op.log[j] != CancelStream && op.log[j] != Release
    ensures Pulls(op.log) == Count(op.log, Free) + Held(op) <= Count(op.log, Free) + 1
    ensures Count(op.log, Release) <= 1
    ensures op.phase.Ended? ==>
              Pulls(op.log) == Count(op.log, Free)
              && (Count(op.log, Release) == 1 <==> op.adopted && op.stream.hasRelease)
  {
    ReachableKeepsInv(op);
    hide Reachable, NoReadAfterFlag, NothingAfterRelease, Count, Pulls, PullsAfterFlag;
  }

  /** Every byte the producer handed out was served or is in hand, until the reader is dropped; no other is served. */
  lemma EveryByteIsServedOrInHand(op: Operation)
    requires Reachable(op)
    ensures op.served <= PulledBytes(op.log)
    ensures InReader(op.phase) ==> PulledBytes(op.log) == op.served + if op.chunk.Some? then op.chunk.value else 0
  {
    ReachableKeepsInv(op);
    hide Reachable, LogInv, CancelInv, HistoryInv, RegistryInv, PulledBytes;
  }

  /** After a cancel no read is admitted, and the producer is asked for at most one more result. */
  lemma CancelStopsReads(op: Operation)
    requires Reachable(op)
    ensures op.canceled <==> FlagRaised in op.log
    ensures NoReadAfterFlag(op.log) && PullsAfterFlag(op.log) <= 1
  {
    ReachableKeepsInv(op);
    hide Reachable, NoReadAfterFlag, NothingAfterRelease, Count, Pulls, PullsAfterFlag;
  }

  /**
   * While a reader can read, its producer was told to stop exactly if the operation was canceled. When the call is over
   * the producer was told exactly if the stream had not been read to its end, or the cancel did not come too late: only
   * a cancel after the reader left the registry, of a stream read to its end, does not reach the producer.
   */
  lemma CancelReachesProducer(op: Operation)
    requires Reachable(op) && op.stream.hasCancel
    ensures InReader(op.phase) ==> (CancelStream in op.log <==> op.canceled)
    ensures op.phase.Ended? && op.adopted ==>
              (CancelStream in op.log <==> Next(End) !in op.log || (FlagRaised in op.log && !RaisedTooLate(op.log)))
    ensures !op.adopted ==> CancelStream !in op.log
  {
    ReachableKeepsInv(op);
    hide Reachable, LogInv;
  }

  /** A cancel that finds a registered reader calls the producer there and then, and the producer is not released. */
  lemma CancelFindsUnreleasedProducer(op: Operation)
    requires Reachable(op) && op.registered && op.stream.hasCancel && InReader(op.phase)
    ensures var op' := CancelEntry(op);
            op'.canceled && |op'.log| > |op.log| && op'.log[|op'.log| - 1] == CancelStream && Release !in op'.log
  {
    ReachableKeepsInv(op);
    hide Reachable, NoReadAfterFlag, NothingAfterRelease, Count, Pulls, PullsAfterFlag;
  }

  // ---------------------------------------------------------------------------------------------
  // A call that nothing interrupts
  // ---------------------------------------------------------------------------------------------

  /** The call's thread takes these steps in a row. */
  function Alone(op: Operation, choices: seq<Choice>): Operation
    decreases |choices|
  {
    if choices == [] then op else Alone(Advance(op, choices[0]), choices[1..])
  }

  lemma {:induction false} AloneConcat(op: Operation, xs: seq<Choice>, ys: seq<Choice>)
    ensures Alone(op, xs + ys) == Alone(Alone(op, xs), ys)
    decreases |xs|
  {
    hide Advance;
    if xs == [] {
      assert xs + ys == ys;
    } else {
      AloneConcat(Advance(op, xs[0]), xs[1..], ys);
      assert (xs + ys)[1..] == xs[1..] + ys;
    }
  }

  /** `n` steps under the same decisions of the environment. */
  function Repeat(c: Choice, n: nat): seq<Choice> {
    seq(n, _ => c)
  }

  lemma {:induction false} AloneRepeats(op: Operation, c: Choice, n: nat)
    ensures n > 0 ==> Alone(op, Repeat(c, n)) == Alone(Advance(op, c), Repeat(c, n - 1))
    ensures n == 0 ==> Alone(op, Repeat(c, n)) == op
  {
    if n > 0 {
      assert Repeat(c, n)[1..] == Repeat(c, n - 1);
    }
  }

  lemma OneStep(op: Operation, c: Choice)
    ensures Alone(op, Repeat(c, 1)) == Advance(op, c)
  {
    hide Advance;
    AloneRepeats(op, c, 1);
    AloneRepeats(Advance(op, c), c, 0);
  }

  lemma TwoSteps(op: Operation, c: Choice)
    ensures Alone(op, Repeat(c, 2)) == Advance(Advance(op, c), c)
  {
    hide *;
    AloneRepeats(op, c, 2);
    OneStep(Advance(op, c), c);
  }

  lemma ThreeSteps(op: Operation, c: Choice)
    ensures Alone(op, Repeat(c, 3)) == Advance(Advance(Advance(op, c), c), c)
  {
    hide *;
    AloneRepeats(op, c, 3);
    TwoSteps(Advance(op, c), c);
  }

  lemma FiveSteps(op: Operation, c: Choice)
    ensures Alone(op, Repeat(c, 5)) == Advance(Advance(Advance(Advance(Advance(op, c), c), c), c), c)
  {
    hide *;
    AloneRepeats(op, c, 5);
    AloneRepeats(Advance(op, c), c, 4);
    ThreeSteps(Advance(Advance(op, c), c), c);
  }

  // --- single steps ---

  lemma ReadStarts(op: Operation, c: Choice)
    requires op.phase.Open? && !op.canceled && c.startRead && c.bufferSize > 0
    ensures Advance(op, c) == op.(phase := InRead(c.bufferSize), log := op.log + [ReadAdmitted])
  {
  }

  lemma ReadCopies(op: Operation, c: Choice)
    requires op.phase.InRead? && op.chunk.Some?
    ensures var n, size := op.chunk.value, op.phase.size;
            Advance(op, c) ==
            op.(phase := if n > 0 then Open else NextCheck(size), served := op.served + Min(n, size),
                chunk := if size < n then Some(n - size) else None, log := if size < n then op.log else op.log + [Free])
  {
  }

  lemma ReadFindsNothingInHand(op: Operation, c: Choice)
    requires op.phase.InRead? && op.chunk.None?
    ensures Advance(op, c) == op.(phase := NextCheck(op.phase.size))
  {
  }

  lemma ReadMayPull(op: Operation, c: Choice)
    requires op.phase.NextCheck? && !op.canceled
    ensures Advance(op, c) == op.(phase := AboutToPull(op.phase.size))
  {
  }

  lemma ReadPulls(op: Operation, c: Choice)
    requires op.phase.AboutToPull?
    ensures Advance(op, c) ==
            op.(phase := if c.pull.NullResult? then Open
                         else if c.pull.Chunk? then InRead(op.phase.size)
                         else Pulled(c.pull),
                chunk := if c.pull.Chunk? then Some(c.pull.length) else op.chunk, log := op.log + [Next(c.pull)])
  {
  }

  lemma ReadFreesResult(op: Operation, c: Choice)
    requires op.phase.Pulled?
    ensures Advance(op, c) ==
            op.(phase := Open, completed := op.completed || op.phase.result == End, log := op.log + [Free])
  {
  }

  // --- whole reads ---

  /** A read of `size` bytes when `n` bytes of a chunk are in hand: it serves what fits, and frees a used up chunk. */
  lemma ReadServesChunkInHand(op: Operation, c: Choice)
    requires op.phase.Open? && !op.canceled && op.chunk.Some? && op.chunk.value > 0 && c.startRead && c.bufferSize > 0
    ensures var n, size, log := op.chunk.value, c.bufferSize, op.log + [ReadAdmitted];
            Alone(op, Repeat(c, 2)) ==
            op.(served := op.served + Min(n, size), chunk := if size < n then Some(n - size) else None,
                log := if size < n then log else log + [Free])
  {
    hide *;
    ReadStarts(op, c);
    ReadCopies(Advance(op, c), c);
    TwoSteps(op, c);
  }

  /** A read with nothing in hand asks the producer for one result. */
  lemma ReadAsksForOneResult(op: Operation, c: Choice)
    requires op.phase.Open? && !op.canceled && op.chunk.None? && c.startRead && c.bufferSize > 0
    ensures Alone(op, Repeat(c, 3)) == op.(phase := AboutToPull(c.bufferSize), log := op.log + [ReadAdmitted])
  {
    hide *;
    ReadStarts(op, c);
    var op1 := Advance(op, c);
    ReadFindsNothingInHand(op1, c);
    ReadMayPull(Advance(op1, c), c);
    ThreeSteps(op, c);
  }

  /** If it is a chunk it is served, unless it is empty: then it is freed, and the read asks again. */
  lemma ReadPullsChunk(op: Operation, c: Choice)
    requires op.phase.AboutToPull? && c.pull.Chunk?
    ensures var n, size, log := c.pull.length, op.phase.size, op.log + [Next(c.pull)];
            Alone(op, Repeat(c, 2)) ==
            op.(phase := if n > 0 then Open else NextCheck(size), served := op.served + Min(n, size),
                chunk := if size < n then Some(n - size) else None, log := if size < n then log else log + [Free])
  {
    hide *;
    ReadPulls(op, c);
    ReadCopies(Advance(op, c), c);
    TwoSteps(op, c);
  }

  /** Any other result ends the read: it is freed unless it is null, and only the stream's end is remembered. */
  lemma ReadMeetsOtherResult(op: Operation, c: Choice)
    requires op.phase.AboutToPull? && !c.pull.Chunk?
    ensures var log := op.log + [Next(c.pull)];
            if c.pull.NullResult? then Alone(op, Repeat(c, 1)) == op.(phase := Open, log := log)
            else
              Alone(op, Repeat(c, 2)) ==
              op.(phase := Open, completed := op.completed || c.pull == End, log := log + [Free])
  {
    hide *;
    ReadPulls(op, c);
    OneStep(op, c);
    if !c.pull.NullResult? {
      ReadFreesResult(Advance(op, c), c);
      TwoSteps(op, c);
    }
  }

  /** After a cancel a read fails at once and changes nothing, and one that was under way pulls nothing more. */
  lemma CanceledReadsFail(op: Operation, c: Choice)
    requires op.canceled && c.startRead
    ensures op.phase.Open? ==> Advance(op, c) == op.(log := op.log + [ReadRefused])
    ensures op.phase.NextCheck? ==> Advance(op, c) == op.(phase := Open, log := op.log + [ReadRefused])
  {
  }

  /** Into an empty buffer a read copies nothing and asks for nothing. */
  lemma EmptyBufferReadsNothing(op: Operation, c: Choice)
    requires op.phase.Open? && !op.canceled && c.startRead && c.bufferSize == 0
    ensures Advance(op, c) == op.(log := op.log + [ReadAdmitted])
  {
  }

  // --- the end of a reader ---

  function LogIf(log: seq<Event>, e: Event, logged: bool): seq<Event> {
    if logged then log + [e] else log
  }

  lemma ReaderDropsChunk(op: Operation, c: Choice)
    requires op.phase.DropChunk?
    ensures Advance(op, c) ==
            op.(phase := DropRegistration, chunk := None, log := LogIf(op.log, Free, op.chunk.Some?))
  {
  }

  lemma ReaderLeavesRegistry(op: Operation, c: Choice)
    requires op.phase.DropRegistration?
    ensures Advance(op, c) == op.(phase := DropCancel, active := false, log := op.log + [LeftRegistry])
  {
  }

  lemma ReaderCancels(op: Operation, c: Choice)
    requires op.phase.DropCancel?
    ensures Advance(op, c) ==
            op.(phase := DropRelease, log := LogIf(op.log, CancelStream, !op.completed && op.stream.hasCancel))
  {
  }

  lemma ReaderReleases(op: Operation, c: Choice)
    requires op.phase.DropRelease?
    ensures Advance(op, c) == op.(phase := Leaving, log := LogIf(op.log, Release, op.stream.hasRelease))
  {
  }

  lemma CallLeaves(op: Operation, c: Choice)
    requires op.phase.Leaving?
    ensures Advance(op, c) == op.(phase := Ended, registered := false, active := false)
  {
  }

  /** What the end of a reader adds to the log. */
  function DropLog(op: Operation): seq<Event> {
    var log := LogIf(op.log, Free, op.chunk.Some?) + [LeftRegistry];
    LogIf(LogIf(log, CancelStream, !op.completed && op.stream.hasCancel), Release, op.stream.hasRelease)
  }

  /** A dropped reader, and one that was rejected, gives back its chunk, leaves, and cancels and releases once each. */
  lemma ReaderIsDropped(op: Operation, c: Choice)
    requires op.phase.DropChunk?
    ensures Alone(op, Repeat(c, 5)) ==
            op.(phase := Ended, chunk := None, registered := false, active := false, log := DropLog(op))
  {
    ReaderDropsChunk(op, c);
    var op1 := Advance(op, c);
    ReaderLeavesRegistry(op1, c);
    var op2 := Advance(op1, c);
    ReaderCancels(op2, c);
    var op3 := Advance(op2, c);
    ReaderReleases(op3, c);
    CallLeaves(Advance(op3, c), c);
    FiveSteps(op, c);
    hide Advance, Alone, Repeat, LogIf;
  }

  /** A call whose descriptor is invalid, or whose entry is gone, rejects the reader it built; any other opens it. */
  lemma AdmittedCallOpensOrRejects(op: Operation, c: Choice)
    requires op.phase.Admitted? && !op.active
    ensures var good := op.stream.valid && op.registered;
            Advance(op, c) ==
            op.(phase := if good then Open else DropChunk, adopted := true, active := good,
                log := op.log + if good && op.canceled && op.stream.hasCancel then [CancelStream] else [])
  {
    assert op.log + [] == op.log;
  }

  function Total(lengths: seq<nat>): nat {
    if lengths == [] then 0 else lengths[0] + Total(lengths[1..])
  }

  /** A reader with a free hand, of a stream nobody canceled. */
  predicate Ready(op: Operation) {
    op.phase.Open? && !op.canceled && op.chunk.None? && op.adopted
  }

  /** The same reader in the middle of a read, about to ask the producer. */
  predicate Asking(op: Operation) {
    op.phase.AboutToPull? && !op.canceled && op.chunk.None? && op.adopted
  }

  /** What was logged adds so many pulled bytes, and no cancel and no release. */
  predicate LogGrows(log: seq<Event>, log': seq<Event>, pulled: nat) {
    && PulledBytes(log') == PulledBytes(log) + pulled
    && (CancelStream in log' <==> CancelStream in log) && (Release in log' <==> Release in log)
  }

  /** What reading does to everything the end of a call depends on. */
  predicate Served(op: Operation, op': Operation, served: nat, pulled: nat) {
    && op'.stream == op.stream && op'.completed == op.completed
    && op'.served == op.served + served && LogGrows(op.log, op'.log, pulled)
  }

  function PulledBy(e: Event): nat {
    if e.Next? && e.result.Chunk? then e.result.length else 0
  }

  lemma LogKeeps(log: seq<Event>, e: Event)
    requires e != CancelStream && e != Release
    ensures LogGrows(log, log + [e], PulledBy(e)) && LogGrows(log, log, 0)
  {
    Appended(log, e);
  }

  lemma LogKeepsTwo(log: seq<Event>, e: Event, f: Event)
    requires CancelStream !in {e, f} && Release !in {e, f}
    ensures LogGrows(log, log + [e], PulledBy(e))
    ensures LogGrows(log, log + [e] + [f], PulledBy(e) + PulledBy(f))
  {
    LogKeeps(log, e);
    LogKeeps(log + [e], f);
    hide PulledBytes, PulledBy;
  }

  lemma ServedTwice(op: Operation, op1: Operation, op2: Operation, n: nat, n1: nat, m: nat, m1: nat)
    requires Served(op, op1, n, m) && Served(op1, op2, n1, m1)
    ensures Served(op, op2, n + n1, m + m1)
  {
    hide PulledBytes;
  }

  function InHand(op: Operation): nat {
    if op.chunk.Some? then op.chunk.value else 0
  }

  /** A reader between two reads. */
  predicate Reading(op: Operation) {
    op.phase.Open? && !op.canceled && op.adopted && (op.chunk.Some? ==> op.chunk.value > 0)
  }

  /** One read of a chunk in hand. */
  lemma PartIsServed(op: Operation, c: Choice)
    requires Reading(op) && op.chunk.Some? && c.startRead && c.bufferSize > 0
    ensures var op', n := Alone(op, Repeat(c, 2)), Min(InHand(op), c.bufferSize);
            Reading(op') && Served(op, op', n, 0) && InHand(op') == InHand(op) - n < InHand(op)
  {
    ReadServesChunkInHand(op, c);
    PartServed(op, Alone(op, Repeat(c, 2)), c.bufferSize);
    hide *;
  }

  lemma PartServed(op: Operation, op': Operation, size: nat)
    requires Reading(op) && op.chunk.Some? && size > 0
    requires var n, log := op.chunk.value, op.log + [ReadAdmitted];
             op' == op.(served := op.served + Min(n, size), chunk := if size < n then Some(n - size) else None,
                        log := if size < n then log else log + [Free])
    ensures Reading(op') && Served(op, op', Min(InHand(op), size), 0)
    ensures InHand(op') == InHand(op) - Min(InHand(op), size) < InHand(op)
  {
    LogKeepsTwo(op.log, ReadAdmitted, Free);
    hide LogGrows;
  }

  lemma NothingIsServed(op: Operation)
    ensures Alone(op, []) == op && Served(op, op, 0, 0)
  {
    LogKeeps(op.log, Free);
    hide LogGrows;
  }

  /** Reads one after the other serve a chunk in hand to its last byte. */
  lemma {:induction false} ChunkIsServed(op: Operation, c: Choice) returns (choices: seq<Choice>)
    requires Reading(op) && c.startRead && c.bufferSize > 0
    ensures var op' := Alone(op, choices); Ready(op') && Served(op, op', InHand(op), 0)
    decreases InHand(op)
  {
    hide Alone, Served, Repeat, Advance, Min;
    if op.chunk.None? {
      choices := [];
      NothingIsServed(op);
    } else {
      PartIsServed(op, c);
      var op1 := Alone(op, Repeat(c, 2));
      var rest := ChunkIsServed(op1, c);
      AloneConcat(op, Repeat(c, 2), rest);
      choices := Repeat(c, 2) + rest;
      ServedTwice(op, op1, Alone(op1, rest), Min(InHand(op), c.bufferSize), InHand(op1), 0, 0);
    }
  }

  /** The first read of a chunk just asked for. */
  lemma PulledPartIsServed(op: Operation, c: Choice)
    requires Asking(op) && c.pull.Chunk?
    ensures var op', n, size := Alone(op, Repeat(c, 2)), c.pull.length, op.phase.size;
            && Served(op, op', Min(n, size), n)
            && op'.phase == (if n > 0 then Open else NextCheck(size)) && !op'.canceled && op'.adopted
            && op'.chunk == if size < n then Some(n - size) else None
  {
    ReadPullsChunk(op, c);
    LogKeepsTwo(op.log, Next(c.pull), Free);
    hide Alone, Repeat, Advance, LogGrows, Min;
  }

  /** An empty chunk is asked for again by the same read. */
  lemma EmptyChunkIsSkipped(op: Operation, c: Choice)
    requires Asking(op) && c.pull == Chunk(0)
    ensures var op' := Alone(op, Repeat(c, 3)); Asking(op') && Served(op, op', 0, 0)
  {
    PulledPartIsServed(op, c);
    var op1 := Alone(op, Repeat(c, 2));
    ReadMayPull(op1, c);
    OneStep(op1, c);
    AloneConcat(op, Repeat(c, 2), Repeat(c, 1));
    assert Repeat(c, 3) == Repeat(c, 2) + Repeat(c, 1);
    hide Alone, Repeat, Advance, LogGrows;
  }

  lemma AskedServesNothing(op: Operation, op': Operation)
    requires op' == op.(phase := op'.phase, log := op.log + [ReadAdmitted])
    ensures Served(op, op', 0, 0)
  {
    LogKeeps(op.log, ReadAdmitted);
    hide LogGrows;
  }

  lemma NextIsAsked(op: Operation, c: Choice)
    requires Ready(op) && c.startRead && c.bufferSize > 0
    ensures var op' := Alone(op, Repeat(c, 3)); Asking(op') && Served(op, op', 0, 0)
  {
    ReadAsksForOneResult(op, c);
    AskedServesNothing(op, Alone(op, Repeat(c, 3)));
    hide Alone, Repeat, Advance, Served, LogGrows, PulledBytes;
  }

  /** From one request to the next: an empty chunk is skipped, any other served by this read and those that follow. */
  lemma ChunkIsServedWhole(op: Operation, c: Choice, length: nat) returns (choices: seq<Choice>)
    requires Asking(op) && c.startRead && c.bufferSize > 0
    ensures var op' := Alone(op, choices); Asking(op') && Served(op, op', length, length)
  {
    var pull := c.(pull := Chunk(length));
    if length == 0 {
      EmptyChunkIsSkipped(op, pull);
      choices := Repeat(pull, 3);
    } else {
      PulledPartIsServed(op, pull);
      hide Alone, Served, Repeat, Advance;
      var op1 := Alone(op, Repeat(pull, 2));
      var served := ChunkIsServed(op1, c);
      var op2 := Alone(op1, served);
      NextIsAsked(op2, c);
      ServedTwice(op, op1, op2, Min(length, op.phase.size), InHand(op1), length, 0);
      ServedTwice(op, op2, Alone(op2, Repeat(c, 3)), length, 0, length, 0);
      AloneConcat(op, Repeat(pull, 2), served);
      AloneConcat(op, Repeat(pull, 2) + served, Repeat(c, 3));
      choices := Repeat(pull, 2) + served + Repeat(c, 3);
    }
  }

  /** Whatever the sizes of the chunks, empty ones included, and of the buffer: the reads serve every byte pulled. */
  lemma {:induction false} ChunksAreServed(op: Operation, c: Choice, lengths: seq<nat>) returns (choices: seq<Choice>)
    requires Asking(op) && c.startRead && c.bufferSize > 0
    ensures var op' := Alone(op, choices); Asking(op') && Served(op, op', Total(lengths), Total(lengths))
    decreases |lengths|
  {
    hide PulledBytes;
    if lengths == [] {
      choices := [];
    } else {
      var first := ChunkIsServedWhole(op, c, lengths[0]);
      hide Alone, Served;
      var op1 := Alone(op, first);
      var rest := ChunksAreServed(op1, c, lengths[1..]);
      ServedTwice(op, op1, Alone(op1, rest), lengths[0], Total(lengths[1..]), lengths[0], Total(lengths[1..]));
      AloneConcat(op, first, rest);
      choices := first + rest;
    }
  }

  lemma EndIsRead(op: Operation, c: Choice)
    requires Asking(op) && c.pull == End
    ensures var op' := Alone(op, Repeat(c, 2)); Ready(op') && Served(op.(completed := true), op', 0, 0)
  {
    ReadMeetsOtherResult(op, c);
    LogKeepsTwo(op.log, Next(End), Free);
    hide Alone, Repeat, Advance, LogGrows;
  }

  lemma CallOpensReader(client: int, stream: Stream, c: Choice)
    requires stream.valid && c.client == client
    ensures var op := NewOperation(client, stream);
            Alone(op, Repeat(c, 3)) == op.(phase := Open, adopted := true, active := true)
  {
    var op := NewOperation(client, stream);
    var op1, op2 := op.(phase := Begun), op.(phase := Admitted);
    assert Advance(op, c) == op1 && Advance(op1, c) == op2;
    AdmittedCallOpensOrRejects(op2, c);
    ThreeSteps(op, c);
    hide Advance, Alone, Repeat;
    assert op.log + [] == op.log;
  }

  /** The reader of a completed stream is dropped, and the call is over. */
  lemma ReaderStops(op: Operation, stop: Choice)
    requires Ready(op) && op.completed && !stop.startRead && CancelStream !in op.log && Release !in op.log
    ensures var op' := Alone(op, Repeat(stop, 6));
            && op'.phase.Ended? && op'.completed && !op'.registered
            && op'.served == op.served && PulledBytes(op'.log) == PulledBytes(op.log)
            && CancelStream !in op'.log && (Release in op'.log <==> op.stream.hasRelease)
  {
    ReaderStopsReading(op, stop);
    var op1 := Advance(op, stop);
    ReaderIsDropped(op1, stop);
    CompletedDropLog(op1);
    hide Advance, DropLog, PulledBytes;
    AloneRepeats(op, stop, 6);
    hide Alone, Repeat;
  }

  lemma ReaderStopsReading(op: Operation, c: Choice)
    requires op.phase.Open? && !c.startRead
    ensures Advance(op, c) == op.(phase := DropChunk)
  {
  }

  lemma CompletedDropLog(op: Operation)
    requires op.completed && op.chunk.None? && CancelStream !in op.log && Release !in op.log
    ensures var log := DropLog(op);
            && PulledBytes(log) == PulledBytes(op.log) && CancelStream !in log
            && (Release in log <==> op.stream.hasRelease)
  {
    LogKeeps(op.log, LeftRegistry);
    Appended(op.log + [LeftRegistry], Release);
    hide PulledBytes, NoReadAfterFlag, NothingAfterRelease, Count, Pulls, PullsAfterFlag, RaisedTooLate;
  }

  /**
   * A call that nothing interrupts, on a valid stream: for any chunks, empty ones included, and any buffer it serves
   * every byte it pulled, tells the producer nothing but that it is released, and leaves no entry behind.
   */
  lemma CallServesTheWholeStream(client: int, stream: Stream, lengths: seq<nat>, bufferSize: nat)
    returns (choices: seq<Choice>)
    requires stream.valid && bufferSize > 0
    ensures var op := Alone(NewOperation(client, stream), choices);
            && op.phase.Ended? && op.completed && !op.registered
            && op.served == PulledBytes(op.log) == Total(lengths)
            && CancelStream !in op.log && (Release in op.log <==> stream.hasRelease)
  {
    var read, stop := Choice(client, true, bufferSize, End), Choice(client, false, bufferSize, End);
    var op0 := NewOperation(client, stream);
    CallOpensReader(client, stream, read);
    assert PulledBytes(op0.log) == 0;
    var op1 := Alone(op0, Repeat(read, 3));
    NextIsAsked(op1, read);
    hide Alone, Repeat, PulledBytes;
    var op2 := Alone(op1, Repeat(read, 3));
    var chunks := ChunksAreServed(op2, read, lengths);
    var op3 := Alone(op2, chunks);
    EndIsRead(op3, read);
    ReaderStops(Alone(op3, Repeat(read, 2)), stop);
    AloneConcat(op0, Repeat(read, 3), Repeat(read, 3));
    AloneConcat(op0, Repeat(read, 3) + Repeat(read, 3), chunks);
    AloneConcat(op0, Repeat(read, 3) + Repeat(read, 3) + chunks, Repeat(read, 2));
    AloneConcat(op0, Repeat(read, 3) + Repeat(read, 3) + chunks + Repeat(read, 2), Repeat(stop, 6));
    choices := Repeat(read, 3) + Repeat(read, 3) + chunks + Repeat(read, 2) + Repeat(stop, 6);
  }

  /** A call left alone builds a reader exactly when its entry is there for its client and was not canceled. */
  lemma AdoptedIffAdmitted(op: Operation, c: Choice)
    requires op.phase.Waiting? && !op.adopted
    ensures Advance(Advance(Advance(op, c), c), c).adopted <==>
            op.registered && op.client == c.client && !op.canceled
  {
  }

  /**
   * The stream is not released for every result: a call refused before it builds a reader leaves the producer alone.
   * Here the operation was canceled before the call began; ReleasedExactlyOnce has the exact condition.
   */
  lemma RefusedCallNeverReleases(client: int)
    ensures var stream := Stream(true, true, true);
            var call := Choice(client, true, 1, End);
            var op := CancelEntry(NewOperation(client, stream));
            var ended := Advance(Advance(Advance(op, call), call), call);
            ended.phase.Ended? && !ended.registered && ended.log == [FlagRaised]
  {
  }

  // ---------------------------------------------------------------------------------------------
  // The shared map
  // ---------------------------------------------------------------------------------------------

  /** One entry: its client, the flag it shares with the call, and the stream a reader registered. */
  datatype Entry = Entry(client: int, flag: PullReader.CancelFlag, stream: Option<ByteStream.Producer>)

  datatype RegistryError = InvalidOperation | RequestCanceled

  class OperationRegistry {
    var nextOperation: int
    var entries: map<int, Entry>

    /** Each flag and each registered stream is one entry's; a registered stream has not been released. */
    ghost predicate Valid()
      reads this, Flags(), Producers()
    {
      && (forall id :: id in entries ==> id < nextOperation)
      && (forall i, j :: i in entries && j in entries && i != j ==> entries[i].flag != entries[j].flag)
      && (forall i, j :: i in entries && j in entries && i != j ==>
            entries[i].stream.Some? && entries[j].stream.Some? ==> entries[i].stream.value != entries[j].stream.value)
      && (forall p :: p in Producers() ==> p.Valid() && !p.released)
    }

    ghost function Flags(): set<PullReader.CancelFlag>
      reads this
    {
      set id | id in entries :: entries[id].flag
    }

    ghost function Producers(): set<ByteStream.Producer>
      reads this
    {
      set id | id in entries && entries[id].stream.Some? :: entries[id].stream.value
    }

    constructor ()
      ensures Valid() && entries == map[] && nextOperation == 1
    {
      nextOperation, entries := 1, map[];
    }

    method CreateOperation(client: int) returns (id: int)
      requires Valid()
      modifies this
      ensures Valid() && id == old(nextOperation) && nextOperation == id + 1 && id !in old(entries)
      ensures id in entries && entries == old(entries)[id := entries[id]]
      ensures entries[id].client == client && entries[id].stream == None
      ensures fresh(entries[id].flag) && !entries[id].flag.canceled
    {
      id := nextOperation;
      nextOperation := id + 1;
      var flag := new PullReader.CancelFlag();
      entries := entries[id := Entry(client, flag, None)];
    }

    /** Raises the entry's flag and cancels the stream it holds. */
    method CancelState(id: int)
      requires Valid() && id in entries
      modifies entries[id].flag
      modifies if entries[id].stream.Some? then {entries[id].stream.value} else {}
      ensures Valid() && entries[id].flag.canceled
      ensures entries[id].stream.Some? ==>
                var p := entries[id].stream.value;
                p.cancels == old(p.cancels) + 1 && p.held == old(p.held) && p.script == old(p.script)
      ensures forall other :: other in entries && other != id ==>
                && entries[other].flag.canceled == old(entries[other].flag.canceled)
                && (entries[other].stream.Some? ==>
                      entries[other].stream.value.cancels == old(entries[other].stream.value.cancels))
    {
      entries[id].flag.canceled := true;
      if entries[id].stream.Some? {
        entries[id].stream.value.Cancel();
      }
    }

    method CancelOperation(id: int)
      requires Valid()
      modifies if id in entries then {entries[id].flag} else {}
      modifies if id in entries && entries[id].stream.Some? then {entries[id].stream.value} else {}
      ensures Valid()
      ensures id in entries ==> entries[id].flag.canceled
      ensures id in entries && entries[id].stream.Some? ==>
                entries[id].stream.value.cancels == old(entries[id].stream.value.cancels) + 1
    {
      if id in entries {
        CancelState(id);
      }
    }

    method DiscardOperation(id: int)
      requires Valid()
      modifies this
      ensures Valid() && entries == old(entries) - {id} && nextOperation == old(nextOperation)
    {
      entries := entries - {id};
    }

    /** Cancels one operation if it is the client's. */
    method CancelIfOwned(client: int, id: int)
      requires Valid() && id in entries
      modifies Flags(), Producers()
      ensures Valid()
      ensures forall other :: other in entries ==>
                entries[other].flag.canceled ==
                (old(entries[other].flag.canceled) || (other == id && entries[id].client == client))
      ensures forall other :: other in entries && entries[other].stream.Some? ==>
                var p := entries[other].stream.value;
                p.cancels == old(p.cancels) + (if other == id && entries[id].client == client then 1 else 0)
    {
      if entries[id].client == client {
        CancelState(id);
      }
    }

    /** Cancels every operation of the client, and no other. */
    method DisposeClient(client: int)
      requires Valid()
      modifies Flags(), Producers()
      ensures Valid()
      ensures forall id :: id in entries ==>
                entries[id].flag.canceled == (old(entries[id].flag.canceled) || entries[id].client == client)
      ensures forall id :: id in entries && entries[id].stream.Some? ==>
                var p := entries[id].stream.value;
                p.cancels == old(p.cancels) + (if entries[id].client == client then 1 else 0)
    {
      hide Valid;
      var left := entries.Keys;
      while left != {}
        invariant left <= entries.Keys && Valid()
        invariant forall id :: id in entries ==>
                    entries[id].flag.canceled ==
                    (old(entries[id].flag.canceled) || (entries[id].client == client && id !in left))
        invariant forall id :: id in entries && entries[id].stream.Some? ==>
                    var p := entries[id].stream.value;
                    p.cancels == old(p.cancels) + (if entries[id].client == client && id !in left then 1 else 0)
        decreases |left|
        modifies Flags(), Producers()
      {
        HasMember(left);
        var id :| id in left;
        left := left - {id};
        CancelIfOwned(client, id);
      }
    }

    /** The guard of a call: a flag that only a cancel of this operation or a dispose of its client raises. */
    method Begin(client: int, id: int) returns (r: Result<PullReader.CancelFlag, RegistryError>)
      requires Valid()
      ensures r.Ok? <==> id in entries && entries[id].client == client
      ensures r.Ok? ==> forall other :: other in entries && entries[other].flag == r.value <==> other == id
      ensures r.Err? ==> r.error == InvalidOperation
    {
      if id !in entries || entries[id].client != client {
        return Err(InvalidOperation);
      }
      r := Ok(entries[id].flag);
    }

    /** The guard is dropped: the operation is over. */
    method End(id: int)
      requires Valid()
      modifies this
      ensures Valid() && entries == old(entries) - {id} && nextOperation == old(nextOperation)
    {
      entries := entries - {id};
    }

    /**
     * Whether a call may go on. It goes on exactly with an operation of its client that was not canceled, and then
     * under that operation's own flag; a canceled operation is over, and no other operation is touched.
     */
    method Admit(client: int, id: int) returns (r: Result<PullReader.CancelFlag, RegistryError>)
      requires Valid()
      modifies this
      ensures Valid() && nextOperation == old(nextOperation)
      ensures r.Ok? <==> id in old(entries) && old(entries)[id].client == client && !old(entries)[id].flag.canceled
      ensures r.Ok? ==> entries == old(entries)
                        && forall other :: other in entries && entries[other].flag == r.value <==> other == id
      ensures r == Err(InvalidOperation) ==> entries == old(entries)
      ensures r == Err(RequestCanceled) ==> entries == old(entries) - {id}
    {
      var begun := Begin(client, id);
      if begun.Err? {
        return Err(InvalidOperation);
      }
      if begun.value.canceled {
        End(id);
        return Err(RequestCanceled);
      }
      r := begun;
    }

    /** Lets later cancels find the stream; an earlier one reaches it here. */
    method RegisterStream(id: int, stream: ByteStream.Producer) returns (r: Result<(), RegistryError>)
      requires Valid() && stream.Valid() && !stream.released && stream !in Producers()
      modifies this, stream
      modifies if id in entries then {entries[id].flag} else {}
      ensures Valid() && nextOperation == old(nextOperation)
      ensures r == if id in old(entries) then Ok(()) else Err(InvalidOperation)
      ensures id !in old(entries) ==> entries == old(entries) && stream.cancels == old(stream.cancels)
      ensures id in old(entries) ==>
                && entries == old(entries)[id := old(entries)[id].(stream := Some(stream))]
                && entries[id].flag.canceled == old(entries[id].flag.canceled)
                && stream.cancels == old(stream.cancels) + (if entries[id].flag.canceled then 1 else 0)
    {
      if id !in entries {
        return Err(InvalidOperation);
      }
      entries := entries[id := entries[id].(stream := Some(stream))];
      if entries[id].flag.canceled {
        CancelState(id);
      }
      r := Ok(());
    }

    /** From here on no cancel can reach the stream. */
    method UnregisterStream(id: int)
      requires Valid()
      modifies this
      ensures Valid() && nextOperation == old(nextOperation)
      ensures entries ==
              if id in old(entries) then old(entries)[id := old(entries)[id].(stream := None)] else old(entries)
      ensures id in old(entries) && old(entries)[id].stream.Some? ==> old(entries)[id].stream.value !in Producers()
    {
      if id in entries {
        entries := entries[id := entries[id].(stream := None)];
      }
    }

    /**
     * Dropping a reader: the chunk in hand is given back, then the registration, and only then is the stream canceled,
     * unless it was read to its end, and released. No registered stream is ever a released one.
     */
    method DropReader(id: int, reader: PullReader.NativeStreamReader)
      requires Valid() && reader.Valid()
      requires forall other :: other in entries && entries[other].stream == Some(reader.producer) ==> other == id
      modifies this, reader, reader.producer
      ensures Valid() && reader.producer !in Producers()
      ensures entries ==
              if id in old(entries) then old(entries)[id := old(entries)[id].(stream := None)] else old(entries)
      ensures reader.current == null && reader.producer.held == {} && reader.producer.released
      ensures reader.producer.cancels == old(reader.producer.cancels) + if reader.completed then 0 else 1
    {
      reader.FreeCurrent();
      UnregisterStream(id);
      reader.Close();
    }
  }
}
