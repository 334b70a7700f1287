/** What one locked section of the WebTransport stream table does to one entry. */
module StreamEntry {
  import opened Common

  const OVERLOAD_CODE: nat := 0x100

  datatype TerminalReason = StoppedLocally | LegacyOverload | QueueOverload | PeerFinished | ReadError

  datatype Terminal = Terminal(errorCode: Option<nat>, reason: TerminalReason)

  function OverloadTerminal(reason: TerminalReason): Terminal {
    Terminal(Some(OVERLOAD_CODE), reason)
  }

  predicate IsOverload(t: Terminal) {
    t.reason == LegacyOverload || t.reason == QueueOverload
  }

  datatype Entry = Entry(
    session: int,
    chunks: seq<Bytes>,
    pendingBytes: nat,
    maxMessages: nat,
    maxBytes: nat,
    terminal: Option<Terminal>,
    canSend: bool,
    canStop: bool,
    sendClosed: bool,
    receiveClosed: bool)

  function NewEntry(session: int, hasReceive: bool, hasSend: bool, maxMessages: nat, maxBytes: nat): Entry {
    Entry(session, [], 0, maxMessages, maxBytes, None, hasSend, hasReceive, !hasSend, !hasReceive)
  }

  function SaturatingAdd(a: nat, b: nat): nat {
    Min(a + b, USIZE_MAX)
  }

  function SaturatingSub(a: nat, b: nat): nat {
    Max(a - b, 0)
  }

  /** Queues a chunk, or refuses it when a limit would be passed. */
  function PushChunk(e: Entry, body: Bytes): Option<Entry> {
    var nextBytes := SaturatingAdd(e.pendingBytes, |body|);
    if |e.chunks| >= e.maxMessages || nextBytes > e.maxBytes then None
    else Some(e.(pendingBytes := nextBytes, chunks := e.chunks + [body]))
  }

  function TakeChunk(e: Entry): (Entry, Option<Bytes>) {
    if e.chunks == [] then (e, None)
    else (e.(chunks := e.chunks[1..], pendingBytes := SaturatingSub(e.pendingBytes, |e.chunks[0]|)), Some(e.chunks[0]))
  }

  function TakeTerminal(e: Entry): (Entry, Option<Terminal>) {
    (e.(terminal := None), e.terminal)
  }

  function PostTerminal(e: Entry, t: Terminal): Entry {
    e.(terminal := Some(t), canStop := false, receiveClosed := true)
  }

  function CloseSend(e: Entry): Entry {
    e.(sendClosed := true, canSend := false)
  }

  predicate Complete(e: Entry) {
    e.sendClosed && e.receiveClosed && e.terminal.None? && e.chunks == []
  }

  /** The byte count is the size of the queue and both limits hold. */
  ghost predicate Accounted(e: Entry) {
    && e.pendingBytes == |Flatten(e.chunks)| <= e.maxBytes
    && |e.chunks| <= e.maxMessages
  }

  /** An accepted chunk is counted exactly if and only if the true sum is a representable size. */
  lemma PushIsExactIffRepresentable(e: Entry, body: Bytes)
    requires Accounted(e) && e.maxBytes <= USIZE_MAX && PushChunk(e, body).Some?
    ensures Accounted(PushChunk(e, body).value) <==> e.pendingBytes + |body| <= USIZE_MAX
  {
    FlattenConcat(e.chunks, [body]);
    FlattenOne(body);
  }

  /** A limit below the largest size refuses every chunk that would saturate the count; no other chunk can. */
  lemma PushKeepsAccounted(e: Entry, body: Bytes)
    requires Accounted(e) && (e.maxBytes < USIZE_MAX || e.pendingBytes + |body| <= USIZE_MAX)
    ensures PushChunk(e, body).Some? <==> |e.chunks| < e.maxMessages && e.pendingBytes + |body| <= e.maxBytes
    ensures PushChunk(e, body).Some? ==> Accounted(PushChunk(e, body).value)
                                         && Flatten(PushChunk(e, body).value.chunks) == Flatten(e.chunks) + body
  {
    FlattenConcat(e.chunks, [body]);
    FlattenOne(body);
  }

  lemma TakeKeepsAccounted(e: Entry)
    requires Accounted(e)
    ensures var (e', body) := TakeChunk(e);
            Accounted(e') && (if body.Some? then body.value else []) + Flatten(e'.chunks) == Flatten(e.chunks)
  {
  }

  // ---------------------------------------------------------------------------------------------
  // The shared table
  // ---------------------------------------------------------------------------------------------

  class StreamMap {
    var streams: map<int, Entry>
    var nextId: int

    constructor ()
      ensures streams == map[] && nextId == 1
    {
      streams, nextId := map[], 1;
    }

    method Register(session: int, hasReceive: bool, hasSend: bool, maxMessages: nat, maxBytes: nat) returns (id: int)
      modifies this
      ensures id == old(nextId) && nextId == id + 1
      ensures streams == old(streams)[id := NewEntry(session, hasReceive, hasSend, maxMessages, maxBytes)]
    {
      id := nextId;
      nextId := nextId + 1;
      streams := streams[id := Entry(session, [], 0, maxMessages, maxBytes, None, hasSend, hasReceive,
                                     !hasSend, !hasReceive)];
    }

    /** The reader's section: a missing entry and a refused chunk are told apart by the result. */
    method Push(id: int, body: Bytes) returns (found: bool, accepted: bool)
      modifies `streams
      ensures found <==> id in old(streams)
      ensures accepted <==> found && PushChunk(old(streams)[id], body).Some?
      ensures streams == if accepted then old(streams)[id := PushChunk(old(streams)[id], body).value] else old(streams)
    {
      if id !in streams {
        return false, false;
      }
      var stream := streams[id];
      var nextBytes := Min(stream.pendingBytes + |body|, USIZE_MAX);
      if |stream.chunks| >= stream.maxMessages || nextBytes > stream.maxBytes {
        return true, false;
      }
      streams := streams[id := stream.(pendingBytes := nextBytes, chunks := stream.chunks + [body])];
      return true, true;
    }

    method Take(id: int) returns (body: Option<Bytes>)
      modifies `streams
      ensures id !in old(streams) ==> body == None && streams == old(streams)
      ensures id in old(streams) ==>
                && id in streams && streams == old(streams)[id := streams[id]]
                && (streams[id], body) == TakeChunk(old(streams)[id])
    {
      if id !in streams {
        return None;
      }
      var stream := streams[id];
      if stream.chunks == [] {
        assert streams[id := streams[id]] == streams;
        return None;
      }
      body := Some(stream.chunks[0]);
      var rest := Max(stream.pendingBytes - |stream.chunks[0]|, 0);
      streams := streams[id := stream.(chunks := stream.chunks[1..], pendingBytes := rest)];
    }

    method TakeEnd(id: int) returns (terminal: Option<Terminal>)
      modifies `streams
      ensures id !in old(streams) ==> terminal == None && streams == old(streams)
      ensures id in old(streams) ==> terminal == old(streams)[id].terminal
                                     && streams == old(streams)[id := TakeTerminal(old(streams)[id]).0]
    {
      if id !in streams {
        return None;
      }
      terminal := streams[id].terminal;
      streams := streams[id := streams[id].(terminal := None)];
    }

    method EndReceive(id: int, t: Terminal)
      modifies `streams
      ensures streams == if id in old(streams) then old(streams)[id := PostTerminal(old(streams)[id], t)]
                         else old(streams)
    {
      if id in streams {
        streams := streams[id := streams[id].(terminal := Some(t))];
        streams := streams[id := streams[id].(canStop := false)];
        streams := streams[id := streams[id].(receiveClosed := true)];
      }
    }

    method EndSend(id: int)
      modifies `streams
      ensures streams == if id in old(streams) then old(streams)[id := CloseSend(old(streams)[id])] else old(streams)
    {
      if id in streams {
        streams := streams[id := streams[id].(sendClosed := true)];
        streams := streams[id := streams[id].(canSend := false)];
      }
    }

    method RemoveIfComplete(id: int) returns (removed: bool)
      modifies `streams
      ensures removed <==> id in old(streams) && Complete(old(streams)[id])
      ensures streams == if removed then old(streams) - {id} else old(streams)
    {
      removed := id in streams && streams[id].sendClosed && streams[id].receiveClosed
                 && streams[id].terminal.None? && streams[id].chunks == [];
      if removed {
        streams := streams - {id};
      }
    }

    method CloseSession(session: int)
      modifies `streams
      ensures streams == map id | id in old(streams) && old(streams)[id].session != session :: old(streams)[id]
    {
      streams := map id | id in streams && streams[id].session != session :: streams[id];
    }
  }
}

/** The tasks around the stream table, interleaved by locked section, and what holds in every reachable state. */
module StreamTable {
  import opened Common
  import opened StreamEntry

  // ---------------------------------------------------------------------------------------------
  // One stream
  // ---------------------------------------------------------------------------------------------

  datatype Reader = NoReader | Reading | Ending(terminal: Terminal) | ReaderDone

  datatype CommandKind = WriteCommand | FinishCommand | ResetCommand

  datatype Command = Command(operation: int, kind: CommandKind)

  datatype Sender = NoSender | Waiting | Working(command: Command) | Closing | SenderDone

  datatype Removal = Present | ByCompletion | BySession

  const COMMAND_CAPACITY: nat := 8

  /** The receive side: the reader task, what it kept for an older caller, and the history of the bytes. */
  datatype Receive = Receive(
    present: bool,
    reader: Reader,
    legacy: Option<Bytes>,
    limit: nat,
    read: Bytes,
    taken: Bytes,
    lost: bool,
    posted: Option<Terminal>,
    terminalTaken: bool)

  /** The send side: the send actor, its queue, and the history of the commands. */
  datatype Send = Send(
    present: bool,
    sender: Sender,
    queue: seq<Command>,
    accepted: seq<Command>,
    completed: seq<Command>,
    dropped: seq<Command>)

  /**
   * The table entry, the two sides, and how many removal calls are between their caller's first and second locked
   * section. In the histories, `read` is what the peer's stream returned, `taken` what the application took, `lost`
   * says that the reader lost a chunk, and `posted` is the terminal the reader posted.
   */
  datatype Stream = Stream(
    entry: Option<Entry>,
    removal: Removal,
    removals: nat,
    receive: Receive,
    send: Send)

  function Opened(session: int, hasReceive: bool, hasSend: bool, legacy: bool, maxMessages: nat, maxBytes: nat): Stream
  {
    Stream(Some(NewEntry(session, hasReceive, hasSend, maxMessages, maxBytes)), Present, 0,
           Receive(hasReceive, if hasReceive then Reading else NoReader, if legacy then Some([]) else None, maxBytes,
                   [], [], false, None, false),
           Send(hasSend, if hasSend then Waiting else NoSender, [], [], [], []))
  }

  datatype Action =
    | PeerChunk(body: Bytes)
    | PeerEnd(terminal: Terminal)
    | PublishEnd
    | TakeOneChunk
    | TakeTheTerminal
    | RunRemoval
    | Submit(command: Command)
    | ReceiveCommand
    | CompleteCommand
    | PublishSendClosed
    | SenderStops
    | SessionEnds

  /** The reader got a chunk: it may refuse it, queue it, or find its entry gone. */
  function AfterPeerChunk(s: Stream, body: Bytes): Stream {
    var r := s.receive.(read := s.receive.read + body);
    if r.legacy.Some? && SaturatingAdd(|r.legacy.value|, |body|) > r.limit then
      s.(receive := r.(reader := Ending(OverloadTerminal(LegacyOverload)), lost := true))
    else
      var collected := if r.legacy.Some? then r.(legacy := Some(r.legacy.value + body)) else r;
      if s.entry.None? then s.(receive := collected.(reader := ReaderDone, lost := true))
      else
        var pushed := PushChunk(s.entry.value, body);
        if pushed.None? then
          s.(receive := collected.(reader := Ending(OverloadTerminal(QueueOverload)), lost := true))
        else s.(receive := collected, entry := pushed)
  }

  /** A locked section of the reader task. */
  function ReaderStep(s: Stream, a: Action): Stream {
    match a
    case PeerChunk(body) => if s.receive.reader != Reading then s else AfterPeerChunk(s, body)
    case PeerEnd(terminal) =>
      if s.receive.reader != Reading || IsOverload(terminal) then s
      else s.(receive := s.receive.(reader := Ending(terminal)))
    case _ =>
      if !s.receive.reader.Ending? then s
      else if s.entry.None? then s.(receive := s.receive.(reader := ReaderDone))
      else
        var terminal := s.receive.reader.terminal;
        s.(entry := Some(PostTerminal(s.entry.value, terminal)),
           receive := s.receive.(reader := ReaderDone, posted := Some(terminal)))
  }

  /** A locked section of one of the takers, of a removal call, or of the session's end. */
  function TakerStep(s: Stream, a: Action): Stream {
    match a
    case TakeOneChunk =>
      var called := s.(removals := s.removals + 1);
      if s.entry.None? then called
      else
        var (e, body) := TakeChunk(s.entry.value);
        called.(entry := Some(e),
                receive := s.receive.(taken := s.receive.taken + if body.Some? then body.value else []))
    case TakeTheTerminal =>
      var called := s.(removals := s.removals + 1);
      if s.entry.None? then called
      else
        var (e, terminal) := TakeTerminal(s.entry.value);
        called.(entry := Some(e),
                receive := s.receive.(terminalTaken := s.receive.terminalTaken || terminal.Some?))
    case RunRemoval =>
      if s.removals == 0 then s
      else
        var ran := s.(removals := s.removals - 1);
        if s.entry.Some? && Complete(s.entry.value) then ran.(entry := None, removal := ByCompletion) else ran
    case _ =>
      if s.entry.None? then s
      else
        s.(entry := None, removal := BySession)
  }

  /** A locked section of a send call or of the send actor. */
  function SenderStep(s: Stream, a: Action): Stream {
    var side := s.send;
    match a
    case Submit(command) =>
      if s.entry.None? || !s.entry.value.canSend || |side.queue| >= COMMAND_CAPACITY then s
      else s.(send := side.(queue := side.queue + [command], accepted := side.accepted + [command]))
    case ReceiveCommand =>
      if side.sender != Waiting || side.queue == [] then s
      else s.(send := side.(sender := Working(side.queue[0]), queue := side.queue[1..]))
    case CompleteCommand =>
      if !side.sender.Working? then s
      else
        s.(send := side.(sender := if side.sender.command.kind == WriteCommand then Waiting else Closing,
                         completed := side.completed + [side.sender.command]))
    case PublishSendClosed =>
      if side.sender != Closing then s
      else
        s.(removals := s.removals + 1,
           entry := if s.entry.None? then None else Some(CloseSend(s.entry.value)),
           send := side.(sender := SenderDone, queue := [], dropped := side.queue))
    case _ =>
      if side.sender != Waiting || side.queue != [] || s.entry.Some? then s
      else s.(send := side.(sender := SenderDone))
  }

  predicate OfReader(a: Action) {
    a.PeerChunk? || a.PeerEnd? || a.PublishEnd?
  }

  predicate OfTaker(a: Action) {
    a.TakeOneChunk? || a.TakeTheTerminal? || a.RunRemoval? || a.SessionEnds?
  }

  /** One locked section of one of the tasks or callers. An action that does not apply changes nothing. */
  function Step(s: Stream, a: Action): Stream {
    if OfReader(a) then ReaderStep(s, a) else if OfTaker(a) then TakerStep(s, a) else SenderStep(s, a)
  }

  // ---------------------------------------------------------------------------------------------
  // What holds of one stream
  // ---------------------------------------------------------------------------------------------

  /** The receive queue: exact byte count, both limits, and no byte missing unless the reader gave up on overload. */
  ghost predicate QueueInv(s: Stream) {
    && (s.entry.Some? ==>
          var e := s.entry.value;
          && Accounted(e)
          && IsPrefix(s.receive.taken + Flatten(e.chunks), s.receive.read)
          && (!s.receive.lost ==> s.receive.taken + Flatten(e.chunks) == s.receive.read))
    && IsPrefix(s.receive.taken, s.receive.read)
    && (s.removal == ByCompletion && !s.receive.lost ==> s.receive.taken == s.receive.read)
    && (s.receive.legacy.Some? && !s.receive.lost ==> s.receive.legacy.value == s.receive.read)
    && (s.receive.legacy.Some? ==> |s.receive.legacy.value| <= Min(s.receive.limit, |s.receive.read|))
  }

  ghost predicate IsPrefix(a: Bytes, b: Bytes) {
    |a| <= |b| && b[..|a|] == a
  }

  /** The reader ended, or is ending, with an overload terminal. */
  ghost predicate GaveUp(s: Stream) {
    || (s.receive.reader.Ending? && IsOverload(s.receive.reader.terminal))
    || (s.receive.reader == ReaderDone && s.receive.posted.Some? && IsOverload(s.receive.posted.value))
  }

  /** The two directions close once each, the terminal is posted once, and the flags in the entry say so. */
  ghost predicate LifeInv(s: Stream) {
    && (s.receive.present <==> s.receive.reader != NoReader)
    && (s.send.present <==> s.send.sender != NoSender)
    && (s.receive.present || s.send.present)
    && (s.entry.Some? <==> s.removal == Present)
    && (s.receive.terminalTaken ==> s.receive.posted.Some?)
    && (s.receive.posted.Some? ==> s.receive.reader == ReaderDone)
    && (s.entry.Some? ==>
          var e := s.entry.value;
          && (e.receiveClosed <==> s.receive.reader == NoReader || s.receive.reader == ReaderDone)
          && (e.sendClosed <==> s.send.sender == NoSender || s.send.sender == SenderDone)
          && (e.canSend <==> !e.sendClosed)
          && (e.canStop <==> !e.receiveClosed)
          && e.maxBytes == s.receive.limit
          && (s.receive.lost ==> GaveUp(s))
          && (s.receive.reader == ReaderDone ==> s.receive.posted.Some?)
          && (s.receive.posted.Some? && !s.receive.terminalTaken ==> e.terminal == s.receive.posted)
          && (s.receive.posted.None? || s.receive.terminalTaken ==> e.terminal == None))
  }

  /** A complete entry that is still in the table has a removal call on its way. */
  ghost predicate RemovalPending(s: Stream) {
    s.entry.Some? && Complete(s.entry.value) ==> s.removals > 0
  }

  /** What a removal by completion found: both directions closed, the terminal taken. */
  ghost predicate RemovedLate(s: Stream) {
    s.removal == ByCompletion ==>
      && (s.send.present ==> s.send.sender == SenderDone)
      && (s.receive.present ==> s.receive.reader == ReaderDone && s.receive.posted.Some? && s.receive.terminalTaken)
      && (s.receive.lost ==> GaveUp(s))
  }

  /** Commands complete in the order accepted; a finish or reset is the last one, and those behind it are dropped. */
  ghost predicate SendInv(s: Stream) {
    && |s.send.queue| <= COMMAND_CAPACITY
    && s.send.accepted == s.send.completed + InWork(s) + s.send.queue + s.send.dropped
    && (s.send.sender == SenderDone || s.send.sender == NoSender ==> s.send.queue == [])
    && (s.send.dropped != [] ==> s.send.sender == SenderDone && EndedByTerminalCommand(s))
    && (s.send.sender == Closing ==> EndedByTerminalCommand(s))
    && (s.send.sender == Waiting || s.send.sender.Working? ==> OnlyWrites(s.send.completed))
    && (s.send.completed != [] ==> OnlyWrites(s.send.completed[..|s.send.completed| - 1]))
  }

  ghost predicate OnlyWrites(commands: seq<Command>) {
    forall i :: 0 <= i < |commands| ==> commands[i].kind == WriteCommand
  }

  ghost predicate EndedByTerminalCommand(s: Stream) {
    s.send.completed != [] && s.send.completed[|s.send.completed| - 1].kind != WriteCommand
  }

  function InWork(s: Stream): seq<Command> {
    if s.send.sender.Working? then [s.send.sender.command] else []
  }

  /** Everything that holds whatever the limits are. */
  ghost predicate Lifecycle(s: Stream) {
    LifeInv(s) && RemovalPending(s) && RemovedLate(s) && SendInv(s)
  }

  /** No count of this stream's bytes can saturate: the limit is below the largest size, or fewer bytes were read. */
  predicate Countable(s: Stream) {
    s.receive.limit < USIZE_MAX || |s.receive.read| <= USIZE_MAX
  }

  ghost predicate StreamInv(s: Stream) {
    Lifecycle(s) && (Countable(s) ==> QueueInv(s))
  }

  lemma OpenedInv(session: int, hasReceive: bool, hasSend: bool, legacy: bool, maxMessages: nat, maxBytes: nat)
    requires hasReceive || hasSend
    ensures StreamInv(Opened(session, hasReceive, hasSend, legacy, maxMessages, maxBytes))
  {
  }

  lemma PrefixGrows(a: Bytes, b: Bytes, more: Bytes)
    requires IsPrefix(a, b)
    ensures IsPrefix(a, b + more)
  {
  }

  lemma PrefixOfItself(a: Bytes)
    ensures IsPrefix(a, a)
  {
  }

  lemma PeerChunkKeepsQueue(s: Stream, body: Bytes)
    requires QueueInv(s) && LifeInv(s) && s.receive.reader == Reading && Countable(AfterPeerChunk(s, body))
    ensures QueueInv(AfterPeerChunk(s, body))
  {
    PrefixGrows(s.receive.taken, s.receive.read, body);
    if s.entry.Some? {
      var e, taken := s.entry.value, s.receive.taken;
      assert |taken + Flatten(e.chunks)| <= |s.receive.read|;
      hide Accounted, Flatten;
      assert e.pendingBytes <= |s.receive.read| by { PendingIsQueued(e); }
      PushKeepsAccounted(e, body);
      PrefixGrows(taken + Flatten(e.chunks), s.receive.read, body);
      JoinIsAssociative(taken, Flatten(e.chunks), body);
      if !s.receive.lost {
        PrefixOfItself(s.receive.read + body);
      }
    }
  }

  lemma PendingIsQueued(e: Entry)
    requires Accounted(e)
    ensures e.pendingBytes == |Flatten(e.chunks)|
  {
  }

  lemma TakeChunkKeepsQueue(s: Stream)
    requires QueueInv(s) && s.entry.Some?
    ensures QueueInv(TakerStep(s, TakeOneChunk))
  {
    hide Accounted;
    TakeKeepsAccounted(s.entry.value);
    var (e, body) := TakeChunk(s.entry.value);
    var bytes := if body.Some? then body.value else [];
    JoinIsAssociative(s.receive.taken, bytes, Flatten(e.chunks));
  }

  lemma ReaderKeepsQueue(s: Stream, a: Action)
    requires QueueInv(s) && LifeInv(s) && OfReader(a) && Countable(ReaderStep(s, a))
    ensures QueueInv(ReaderStep(s, a))
  {
    if a.PeerChunk? && s.receive.reader == Reading {
      PeerChunkKeepsQueue(s, a.body);
    }
    hide AfterPeerChunk, Flatten, IsPrefix;
  }

  lemma TakerKeepsQueue(s: Stream, a: Action)
    requires QueueInv(s) && LifeInv(s) && OfTaker(a)
    ensures QueueInv(TakerStep(s, a))
  {
    if a.TakeOneChunk? && s.entry.Some? {
      TakeChunkKeepsQueue(s);
    }
    hide IsPrefix;
  }

  lemma SenderKeepsQueue(s: Stream, a: Action)
    requires QueueInv(s) && !OfReader(a) && !OfTaker(a)
    ensures QueueInv(SenderStep(s, a))
  {
    hide IsPrefix, Flatten;
  }

  lemma ReaderKeepsLife(s: Stream, a: Action)
    requires LifeInv(s) && OfReader(a)
    ensures LifeInv(ReaderStep(s, a))
  {
  }

  lemma TakerKeepsLife(s: Stream, a: Action)
    requires LifeInv(s) && OfTaker(a)
    ensures LifeInv(TakerStep(s, a))
  {
  }

  lemma SenderKeepsLife(s: Stream, a: Action)
    requires LifeInv(s) && !OfReader(a) && !OfTaker(a)
    ensures LifeInv(SenderStep(s, a))
  {
  }

  /** The calls that could leave a complete entry behind still owe a removal. */
  lemma ReaderKeepsRemoval(s: Stream, a: Action)
    requires LifeInv(s) && RemovalPending(s) && RemovedLate(s) && OfReader(a)
    ensures RemovalPending(ReaderStep(s, a)) && RemovedLate(ReaderStep(s, a))
  {
  }

  lemma TakerKeepsRemoval(s: Stream, a: Action)
    requires LifeInv(s) && RemovalPending(s) && RemovedLate(s) && OfTaker(a)
    ensures RemovalPending(TakerStep(s, a)) && RemovedLate(TakerStep(s, a))
  {
  }

  lemma SenderKeepsRemoval(s: Stream, a: Action)
    requires LifeInv(s) && RemovalPending(s) && RemovedLate(s) && !OfReader(a) && !OfTaker(a)
    ensures RemovalPending(SenderStep(s, a)) && RemovedLate(SenderStep(s, a))
  {
  }

  // --- the send side ---

  lemma SubmitKeepsSend(s: Stream, command: Command)
    requires LifeInv(s) && SendInv(s)
    ensures SendInv(SenderStep(s, Submit(command)))
  {
    var side := s.send;
    if s.entry.Some? && s.entry.value.canSend && |side.queue| < COMMAND_CAPACITY {
      assert side.dropped == [];
      assert side.completed + InWork(s) + (side.queue + [command]) + [] ==
             side.completed + InWork(s) + side.queue + [] + [command];
    }
  }

  lemma ReceiveKeepsSend(s: Stream)
    requires LifeInv(s) && SendInv(s)
    ensures SendInv(SenderStep(s, ReceiveCommand))
  {
    var side := s.send;
    if side.sender == Waiting && side.queue != [] {
      assert side.completed + [] + side.queue == side.completed + [side.queue[0]] + side.queue[1..];
    }
  }

  lemma CompleteKeepsSend(s: Stream)
    requires SendInv(s)
    ensures SendInv(SenderStep(s, CompleteCommand))
  {
    var side := s.send;
    if side.sender.Working? {
      OneMore(side.completed, side.sender.command);
    }
  }

  lemma OneMore(commands: seq<Command>, last: Command)
    ensures (commands + [last])[..|commands|] == commands && commands + [last] + [] == commands + [last]
    ensures OnlyWrites(commands) && last.kind == WriteCommand ==> OnlyWrites(commands + [last])
  {
  }

  lemma PublishKeepsSend(s: Stream)
    requires SendInv(s)
    ensures SendInv(SenderStep(s, PublishSendClosed))
  {
    var side := s.send;
    if side.sender == Closing {
      assert side.completed + [] + side.queue + [] == side.completed + [] + [] + side.queue;
    }
  }

  lemma SenderKeepsSend(s: Stream, a: Action)
    requires LifeInv(s) && SendInv(s) && !OfReader(a) && !OfTaker(a)
    ensures SendInv(SenderStep(s, a))
  {
    match a
    case Submit(command) => SubmitKeepsSend(s, command);
    case ReceiveCommand => ReceiveKeepsSend(s);
    case CompleteCommand => CompleteKeepsSend(s);
    case PublishSendClosed => PublishKeepsSend(s);
    case _ =>
  }

  lemma OthersLeaveSend(s: Stream, a: Action)
    ensures OfReader(a) ==> ReaderStep(s, a).send == s.send
    ensures OfTaker(a) ==> TakerStep(s, a).send == s.send
  {
  }

  lemma StepKeepsSend(s: Stream, a: Action)
    requires LifeInv(s) && SendInv(s)
    ensures SendInv(Step(s, a))
  {
    hide ReaderStep, TakerStep, SenderStep, LifeInv;
    OthersLeaveSend(s, a);
    if !OfReader(a) && !OfTaker(a) {
      hide SendInv;
      SenderKeepsSend(s, a);
    }
  }

  lemma StepKeepsLifecycle(s: Stream, a: Action)
    requires Lifecycle(s)
    ensures Lifecycle(Step(s, a))
  {
    hide ReaderStep, TakerStep, SenderStep, LifeInv, RemovalPending, RemovedLate, SendInv;
    StepKeepsSend(s, a);
    if OfReader(a) {
      ReaderKeepsLife(s, a);
      ReaderKeepsRemoval(s, a);
    } else if OfTaker(a) {
      TakerKeepsLife(s, a);
      TakerKeepsRemoval(s, a);
    } else {
      SenderKeepsLife(s, a);
      SenderKeepsRemoval(s, a);
    }
  }

  /** The limit never changes and what was read only grows, so a countable stream always was one. */
  lemma StepKeepsCountable(s: Stream, a: Action)
    ensures Step(s, a).receive.limit == s.receive.limit
    ensures Countable(Step(s, a)) ==> Countable(s)
  {
  }

  lemma StepKeepsInv(s: Stream, a: Action)
    requires StreamInv(s)
    ensures StreamInv(Step(s, a))
  {
    StepKeepsCountable(s, a);
    hide ReaderStep, TakerStep, SenderStep, LifeInv, RemovalPending, RemovedLate, SendInv, QueueInv, Countable;
    StepKeepsLifecycle(s, a);
    if Countable(Step(s, a)) {
      if OfReader(a) {
        ReaderKeepsQueue(s, a);
      } else if OfTaker(a) {
        TakerKeepsQueue(s, a);
      } else {
        SenderKeepsQueue(s, a);
      }
    }
  }

  // ---------------------------------------------------------------------------------------------
  // When the reader gives up
  // ---------------------------------------------------------------------------------------------

  /** An older caller's collected payload has no room for the chunk. */
  predicate LegacyTooLong(s: Stream, body: Bytes) {
    s.receive.legacy.Some? && |s.receive.legacy.value| + |body| > s.receive.limit
  }

  /** The queue has no room for the chunk. */
  predicate QueueTooFull(s: Stream, body: Bytes) {
    s.entry.Some? &&
    var e := s.entry.value;
    |e.chunks| >= e.maxMessages || |Flatten(e.chunks)| + |body| > e.maxBytes
  }

  /** The reader is about to handle a chunk there is no room for. */
  predicate MeetsOverload(s: Stream, a: Action) {
    a.PeerChunk? && s.receive.reader == Reading && (LegacyTooLong(s, a.body) || QueueTooFull(s, a.body))
  }

  /** Both sums the reader compares are true sums. */
  lemma SumsAreExact(s: Stream, body: Bytes)
    requires StreamInv(s) && s.receive.reader == Reading && Countable(AfterPeerChunk(s, body))
    ensures s.receive.legacy.Some? ==>
              (SaturatingAdd(|s.receive.legacy.value|, |body|) > s.receive.limit <==> LegacyTooLong(s, body))
    ensures s.entry.Some? ==>
              var e := s.entry.value;
              && Accounted(e) && (e.maxBytes < USIZE_MAX || e.pendingBytes + |body| <= USIZE_MAX)
              && (PushChunk(e, body).None? <==> QueueTooFull(s, body))
  {
    StepKeepsCountable(s, PeerChunk(body));
    assert |AfterPeerChunk(s, body).receive.read| == |s.receive.read| + |body|;
    assert QueueInv(s) && LifeInv(s);
    hide Flatten, AfterPeerChunk, StreamInv;
    if s.entry.Some? {
      assert |s.receive.taken + Flatten(s.entry.value.chunks)| <= |s.receive.read|;
      PendingIsQueued(s.entry.value);
    }
  }

  /**
   * A chunk there is room for is collected and queued, and the reader reads on. Any other chunk is lost: the queue
   * stays as it is, and the reader ends with the overload terminal that says which of the two limits was passed.
   */
  lemma ChunkIsQueuedIffThereIsRoom(s: Stream, body: Bytes)
    requires StreamInv(s) && s.receive.reader == Reading && s.entry.Some? && Countable(Step(s, PeerChunk(body)))
    ensures var s', e, r := Step(s, PeerChunk(body)), s.entry.value, s.receive;
            && s'.send == s.send && s'.receive.read == r.read + body && s'.receive.taken == r.taken
            && (s'.receive.reader == Reading <==> !MeetsOverload(s, PeerChunk(body)))
            && (s'.receive.reader != Reading ==>
                  && s'.entry == s.entry && s'.receive.lost
                  && s'.receive.reader ==
                     Ending(Terminal(Some(0x100), if LegacyTooLong(s, body) then LegacyOverload else QueueOverload)))
            && (s'.receive.reader == Reading ==>
                  && s'.entry == Some(e.(chunks := e.chunks + [body], pendingBytes := |Flatten(e.chunks)| + |body|))
                  && s'.receive.lost == r.lost
                  && s'.receive.legacy == if r.legacy.Some? then Some(r.legacy.value + body) else None)
  {
    SumsAreExact(s, body);
    hide Flatten, StreamInv;
  }

  /** The reader gives up where it meets such a chunk and nowhere else, and does not forget that it did. */
  lemma StepGivesUpIffOverload(s: Stream, a: Action)
    requires StreamInv(s) && Countable(Step(s, a))
    ensures GaveUp(Step(s, a)) ==> GaveUp(s) || MeetsOverload(s, a)
    ensures Step(s, a).entry.Some? && (GaveUp(s) || MeetsOverload(s, a)) ==> GaveUp(Step(s, a))
  {
    if a.PeerChunk? && s.receive.reader == Reading {
      SumsAreExact(s, a.body);
    }
    assert LifeInv(s);
    hide Flatten, StreamInv, QueueInv, PushChunk;
  }

  // ---------------------------------------------------------------------------------------------
  // No stream is stuck
  // ---------------------------------------------------------------------------------------------

  /** The stream after some of its tasks and callers ran. */
  function After(s: Stream, actions: seq<Action>): Stream
    decreases |actions|
  {
    if actions == [] then s else After(Step(s, actions[0]), actions[1..])
  }

  lemma {:induction false} AfterConcat(s: Stream, xs: seq<Action>, ys: seq<Action>)
    ensures After(s, xs + ys) == After(After(s, xs), ys)
    decreases |xs|
  {
    hide Step;
    if xs == [] {
      assert xs + ys == ys;
    } else {
      AfterConcat(Step(s, xs[0]), xs[1..], ys);
      assert (xs + ys)[1..] == xs[1..] + ys;
    }
  }

  lemma AfterCons(s: Stream, a: Action, rest: seq<Action>)
    ensures After(s, [a] + rest) == After(Step(s, a), rest)
  {
    assert ([a] + rest)[1..] == rest;
  }

  lemma AfterOne(s: Stream, a: Action)
    ensures After(s, [a]) == Step(s, a)
  {
    AfterCons(s, a, []);
    assert [a] + [] == [a];
  }

  /** The send actor's current command and the queue behind it are worked off until one of them ends the stream. */
  lemma {:induction false} QueueIsWorkedOff(s: Stream) returns (actions: seq<Action>)
    requires Lifecycle(s) && s.entry.Some? && !s.entry.value.sendClosed
    ensures var s' := After(s, actions);
            && Lifecycle(s') && s'.receive == s.receive && s'.entry == s.entry
            && (s'.send.sender == Closing || (s'.send.sender == Waiting && s'.send.queue == []))
    decreases |s.send.queue|, if s.send.sender.Working? then 1 else 0
  {
    if s.send.sender == Closing || (s.send.sender == Waiting && s.send.queue == []) {
      actions := [];
    } else {
      var a := if s.send.sender.Working? then CompleteCommand else ReceiveCommand;
      StepKeepsLifecycle(s, a);
      var rest := QueueIsWorkedOff(Step(s, a));
      AfterCons(s, a, rest);
      actions := [a] + rest;
    }
  }

  /** A finish submitted to an idle send actor ends the send side. */
  lemma FinishEndsIdleSender(s: Stream) returns (actions: seq<Action>)
    requires Lifecycle(s) && s.entry.Some? && s.send.sender == Waiting && s.send.queue == []
    ensures var s' := After(s, actions);
            Lifecycle(s') && s'.receive == s.receive && s'.entry == s.entry && s'.send.sender == Closing
  {
    var submit := Submit(Command(0, FinishCommand));
    StepKeepsLifecycle(s, submit);
    var s1 := Step(s, submit);
    assert s1.send.queue == [Command(0, FinishCommand)];
    StepKeepsLifecycle(s1, ReceiveCommand);
    var s2 := Step(s1, ReceiveCommand);
    StepKeepsLifecycle(s2, CompleteCommand);
    AfterOne(s2, CompleteCommand);
    AfterCons(s1, ReceiveCommand, [CompleteCommand]);
    actions := [ReceiveCommand] + [CompleteCommand];
    AfterCons(s, submit, actions);
    actions := [submit] + actions;
  }

  lemma SendSideCanClose(s: Stream) returns (actions: seq<Action>)
    requires Lifecycle(s) && s.entry.Some?
    ensures var s' := After(s, actions);
            && Lifecycle(s') && s'.receive == s.receive
            && s'.entry == Some(s.entry.value.(sendClosed := true, canSend := false))
  {
    if s.entry.value.sendClosed {
      actions := [];
    } else {
      actions := QueueIsWorkedOff(s);
      var s1 := After(s, actions);
      if s1.send.sender == Waiting {
        var more := FinishEndsIdleSender(s1);
        AfterConcat(s, actions, more);
        actions := actions + more;
      }
      var s2 := After(s, actions);
      StepKeepsLifecycle(s2, PublishSendClosed);
      AfterOne(s2, PublishSendClosed);
      AfterConcat(s, actions, [PublishSendClosed]);
      actions := actions + [PublishSendClosed];
    }
  }

  /** A reader that reads is ended by its peer, and one that is ending posts the terminal it ends with. */
  lemma ReceiveSideCanClose(s: Stream, terminal: Terminal) returns (actions: seq<Action>)
    requires Lifecycle(s) && s.entry.Some? && terminal.reason in {PeerFinished, ReadError, StoppedLocally}
    ensures var s' := After(s, actions);
            && Lifecycle(s') && s'.entry.Some? && s'.entry.value.receiveClosed
            && s'.entry.value.sendClosed == s.entry.value.sendClosed && s'.entry.value.chunks == s.entry.value.chunks
            && s'.receive.taken == s.receive.taken && s'.receive.read == s.receive.read
            && (s.receive.reader == Reading ==> s'.receive.posted == Some(terminal))
            && (s.receive.reader.Ending? ==> s'.receive.posted == Some(s.receive.reader.terminal))
            && (s.receive.posted.Some? ==> s'.receive.posted == s.receive.posted)
  {
    var finish := PeerEnd(terminal);
    if s.receive.reader == Reading {
      StepKeepsLifecycle(s, finish);
      var s1 := Step(s, finish);
      StepKeepsLifecycle(s1, PublishEnd);
      AfterOne(s1, PublishEnd);
      AfterCons(s, finish, [PublishEnd]);
      actions := [finish] + [PublishEnd];
    } else if s.receive.reader.Ending? {
      StepKeepsLifecycle(s, PublishEnd);
      AfterOne(s, PublishEnd);
      actions := [PublishEnd];
    } else {
      actions := [];
    }
  }

  /** Each take hands out the oldest chunk, until none is left. */
  lemma {:induction false} ChunksCanBeTaken(s: Stream) returns (actions: seq<Action>)
    requires Lifecycle(s) && s.entry.Some?
    ensures var s' := After(s, actions);
            && Lifecycle(s') && s'.entry.Some? && s'.entry.value.chunks == []
            && s'.entry.value.sendClosed == s.entry.value.sendClosed
            && s'.entry.value.receiveClosed == s.entry.value.receiveClosed
            && s'.receive == s.receive.(taken := s.receive.taken + Flatten(s.entry.value.chunks))
    decreases |s.entry.value.chunks|
  {
    var chunks := s.entry.value.chunks;
    if chunks == [] {
      assert s.receive.taken + [] == s.receive.taken;
      actions := [];
    } else {
      StepKeepsLifecycle(s, TakeOneChunk);
      var rest := ChunksCanBeTaken(Step(s, TakeOneChunk));
      JoinIsAssociative(s.receive.taken, chunks[0], Flatten(chunks[1..]));
      AfterCons(s, TakeOneChunk, rest);
      actions := [TakeOneChunk] + rest;
    }
  }

  /** With both sides closed and the queue empty, taking the terminal leaves an entry that its removal call removes. */
  lemma TerminalCanBeTaken(s: Stream) returns (actions: seq<Action>)
    requires Lifecycle(s) && s.entry.Some?
    requires s.entry.value.sendClosed && s.entry.value.receiveClosed && s.entry.value.chunks == []
    ensures var s' := After(s, actions);
            && s'.removal == ByCompletion && s'.entry.None?
            && s'.receive == s.receive.(terminalTaken := s.receive.posted.Some?)
  {
    StepKeepsLifecycle(s, TakeTheTerminal);
    var s1 := Step(s, TakeTheTerminal);
    AfterOne(s1, RunRemoval);
    AfterCons(s, TakeTheTerminal, [RunRemoval]);
    actions := [TakeTheTerminal] + [RunRemoval];
  }

  /**
   * No stream is stuck: from every state of a stream whose entry is in the table its tasks and callers can go on so
   * that every queued chunk is taken, the terminal the reader ends with is handed out, whatever the peer makes it,
   * and the entry is removed because it is complete.
   */
  lemma EntryCanAlwaysBeCompleted(s: Stream, terminal: Terminal) returns (actions: seq<Action>)
    requires Lifecycle(s) && s.entry.Some? && terminal.reason in {PeerFinished, ReadError, StoppedLocally}
    ensures var s' := After(s, actions);
            && s'.removal == ByCompletion && s'.entry.None?
            && s'.receive.taken == s.receive.taken + Flatten(s.entry.value.chunks)
            && (s.receive.present ==> s'.receive.terminalTaken)
            && (s.receive.reader == Reading ==> s'.receive.posted == Some(terminal))
            && (s.receive.reader.Ending? ==> s'.receive.posted == Some(s.receive.reader.terminal))
  {
    hide Step, After, Flatten;
    var send := SendSideCanClose(s);
    var s1 := After(s, send);
    var receive := ReceiveSideCanClose(s1, terminal);
    var s2 := After(s1, receive);
    var take := ChunksCanBeTaken(s2);
    var s3 := After(s2, take);
    var end := TerminalCanBeTaken(s3);
    AfterConcat(s, send, receive);
    AfterConcat(s, send + receive, take);
    AfterConcat(s, send + receive + take, end);
    actions := send + receive + take + end;
  }

  /** Every take, and the end of the send side, owes one removal call, and only such a call pays it. */
  lemma OneRemovalCallForEach(s: Stream, a: Action)
    ensures Step(s, a).removals - s.removals ==
            (if a.TakeOneChunk? || a.TakeTheTerminal? || (a.PublishSendClosed? && s.send.sender == Closing) then 1
             else 0)
            - (if a.RunRemoval? && s.removals > 0 then 1 else 0)
  {
  }

  /** A command is accepted exactly while the send side is open and fewer than eight accepted ones wait. */
  lemma SubmitIsAcceptedIffThereIsRoom(s: Stream, command: Command)
    requires Lifecycle(s)
    ensures var s' := Step(s, Submit(command));
            var waiting := |s.send.accepted| - |s.send.completed| - |InWork(s)|;
            && (s'.send.accepted == s.send.accepted + [command] <==>
                  s.entry.Some? && !s.entry.value.sendClosed && waiting < 8)
            && (s'.send.accepted != s.send.accepted + [command] ==> s' == s)
  {
  }

  /** The reader of a stream whose entry is gone ends with the next chunk or the next end of its peer. */
  lemma ReaderEndsWithoutEntry(s: Stream) returns (actions: seq<Action>)
    requires Lifecycle(s) && s.entry.None?
    ensures var s' := After(s, actions);
            && Lifecycle(s') && s'.entry.None? && s'.send == s.send
            && (s'.receive.reader == NoReader || s'.receive.reader == ReaderDone)
            && s'.receive.taken == s.receive.taken && s'.receive.posted == s.receive.posted
  {
    if s.receive.reader == Reading {
      var chunk := PeerChunk([]);
      StepKeepsLifecycle(s, chunk);
      var s1 := Step(s, chunk);
      StepKeepsLifecycle(s1, PublishEnd);
      AfterOne(s1, PublishEnd);
      AfterCons(s, chunk, [PublishEnd]);
      actions := [chunk] + [PublishEnd];
    } else {
      StepKeepsLifecycle(s, PublishEnd);
      AfterOne(s, PublishEnd);
      actions := [PublishEnd];
    }
  }

  /** The send actor of a stream whose entry is gone works off its queue and stops. */
  lemma {:induction false} SenderEndsWithoutEntry(s: Stream) returns (actions: seq<Action>)
    requires Lifecycle(s) && s.entry.None?
    ensures var s' := After(s, actions);
            && Lifecycle(s') && s'.entry.None? && s'.receive == s.receive
            && (s'.send.sender == NoSender || s'.send.sender == SenderDone)
            && s'.send.accepted == s.send.accepted
    decreases |s.send.queue|,
              match s.send.sender
              case Waiting => if s.send.queue == [] then 1 else 2
              case Working(_) => 3
              case Closing => 1
              case _ => 0
  {
    if s.send.sender == NoSender || s.send.sender == SenderDone {
      actions := [];
    } else {
      var a :=
        if s.send.sender.Working? then CompleteCommand
        else if s.send.sender == Closing then PublishSendClosed
        else if s.send.queue == [] then SenderStops
        else ReceiveCommand;
      StepKeepsLifecycle(s, a);
      var rest := SenderEndsWithoutEntry(Step(s, a));
      AfterCons(s, a, rest);
      actions := [a] + rest;
    }
  }

  /** Once the entry is gone both tasks can come to their end; nothing more is handed out and nothing accepted. */
  lemma TasksCanEndWithoutEntry(s: Stream) returns (actions: seq<Action>)
    requires Lifecycle(s) && s.entry.None?
    ensures var s' := After(s, actions);
            && (s'.receive.reader == NoReader || s'.receive.reader == ReaderDone)
            && (s'.send.sender == NoSender || s'.send.sender == SenderDone)
            && s'.receive.taken == s.receive.taken && s'.send.accepted == s.send.accepted
  {
    hide Step, After;
    var reader := ReaderEndsWithoutEntry(s);
    var sender := SenderEndsWithoutEntry(After(s, reader));
    AfterConcat(s, reader, sender);
    actions := reader + sender;
  }

  // ---------------------------------------------------------------------------------------------
  // The whole table
  // ---------------------------------------------------------------------------------------------

  datatype Table = Table(streams: map<int, Stream>, nextId: int)

  datatype TableAction =
    | Open(session: int, hasReceive: bool, hasSend: bool, legacy: bool, maxMessages: nat, maxBytes: nat)
    | On(id: int, action: Action)
    | CloseSession(session: int)

  function SessionClosed(s: Stream, session: int): Stream {
    if s.entry.Some? && s.entry.value.session == session then Step(s, SessionEnds) else s
  }

  function TableStep(t: Table, a: TableAction): Table {
    match a
    case Open(session, hasReceive, hasSend, legacy, maxMessages, maxBytes) =>
      if !hasReceive && !hasSend then t
      else
        var stream := Opened(session, hasReceive, hasSend, legacy, maxMessages, maxBytes);
        Table(t.streams[t.nextId := stream], t.nextId + 1)
    case On(id, action) =>
      if id !in t.streams then t else t.(streams := t.streams[id := Step(t.streams[id], action)])
    case CloseSession(session) =>
      t.(streams := map id | id in t.streams :: SessionClosed(t.streams[id], session))
  }

  function Run(actions: seq<TableAction>): Table {
    if actions == [] then Table(map[], 1) else TableStep(Run(actions[..|actions| - 1]), actions[|actions| - 1])
  }

  ghost predicate TableInv(t: Table) {
    forall id :: id in t.streams ==> id < t.nextId && StreamInv(t.streams[id])
  }

  lemma TableStepKeepsInv(t: Table, a: TableAction)
    requires TableInv(t)
    ensures TableInv(TableStep(t, a))
  {
    hide StreamInv, Step, Opened;
    match a
    case Open(session, hasReceive, hasSend, legacy, maxMessages, maxBytes) =>
      if hasReceive || hasSend {
        OpenedInv(session, hasReceive, hasSend, legacy, maxMessages, maxBytes);
      }
    case On(id, action) =>
      if id in t.streams {
        StepKeepsInv(t.streams[id], action);
      }
    case CloseSession(session) =>
      forall id | id in t.streams
        ensures StreamInv(SessionClosed(t.streams[id], session))
      {
        StepKeepsInv(t.streams[id], SessionEnds);
      }
  }

  /** Every stream of every reachable table satisfies the invariant, under any interleaving. */
  lemma {:induction false} RunKeepsInv(actions: seq<TableAction>)
    ensures TableInv(Run(actions))
  {
    if actions != [] {
      hide TableInv, TableStep;
      RunKeepsInv(actions[..|actions| - 1]);
      TableStepKeepsInv(Run(actions[..|actions| - 1]), actions[|actions| - 1]);
    }
  }

  // ---------------------------------------------------------------------------------------------
  // What follows for reachable tables
  // ---------------------------------------------------------------------------------------------

  /** An entry goes away by completion only when both directions are closed and everything the peer sent was taken. */
  lemma RemovalLosesNothing(actions: seq<TableAction>, id: int)
    requires id in Run(actions).streams && Run(actions).streams[id].removal == ByCompletion
    ensures var s := Run(actions).streams[id];
            var countable := s.receive.limit < 0xFFFF_FFFF_FFFF_FFFF || |s.receive.read| <= 0xFFFF_FFFF_FFFF_FFFF;
            && (s.send.present ==> s.send.sender == SenderDone)
            && (s.receive.present ==>
                  s.receive.reader == ReaderDone && s.receive.posted.Some? && s.receive.terminalTaken)
            && (countable ==>
                  || s.receive.taken == s.receive.read
                  || (s.receive.posted.Some? && IsOverload(s.receive.posted.value)
                      && IsPrefix(s.receive.taken, s.receive.read)))
  {
    RunKeepsInv(actions);
  }

  /** With no removal call under way, no complete entry is left in the table. */
  lemma NothingLeftAtQuiescence(actions: seq<TableAction>, id: int)
    requires id in Run(actions).streams && Run(actions).streams[id].removals == 0
    ensures var s := Run(actions).streams[id]; s.entry.Some? ==> !Complete(s.entry.value)
  {
    RunKeepsInv(actions);
  }

  /** An entry is removed at most once, and never comes back. */
  lemma RemovedForever(s: Stream, a: Action)
    requires StreamInv(s) && s.removal != Present
    ensures Step(s, a).removal == s.removal && Step(s, a).entry == None
  {
  }

  /** At some step of the run the stream's reader met a chunk there was no room for. */
  predicate Overloaded(actions: seq<TableAction>, id: int) {
    actions != [] &&
    var front, last := actions[..|actions| - 1], actions[|actions| - 1];
    || Overloaded(front, id)
    || (last.On? && last.id == id && id in Run(front).streams && MeetsOverload(Run(front).streams[id], last.action))
  }

  /** What one step of the table does to one stream: it opens it, takes one of its steps, or leaves it alone. */
  lemma StepOfStream(t: Table, a: TableAction, id: int)
    requires TableInv(t) && id in TableStep(t, a).streams
    ensures var s' := TableStep(t, a).streams[id];
            if id !in t.streams then
              a.Open? && (a.hasReceive || a.hasSend)
              && s' == Opened(a.session, a.hasReceive, a.hasSend, a.legacy, a.maxMessages, a.maxBytes)
            else if a.On? && a.id == id then s' == Step(t.streams[id], a.action)
            else s' == t.streams[id] || (a.CloseSession? && s' == Step(t.streams[id], SessionEnds))
  {
    hide StreamInv, Step, Opened;
  }

  lemma {:induction false} OverloadedIsOpen(actions: seq<TableAction>, id: int)
    requires Overloaded(actions, id)
    ensures id in Run(actions).streams
  {
    hide Step, MeetsOverload;
    if Overloaded(actions[..|actions| - 1], id) {
      OverloadedIsOpen(actions[..|actions| - 1], id);
    }
  }

  /**
   * In every reachable table: a reader gave up only after it met a chunk there was no room for, and as long as its
   * entry is there it gave up exactly if it met one.
   */
  lemma {:induction false} GaveUpIffOverloaded(actions: seq<TableAction>, id: int)
    requires id in Run(actions).streams && Countable(Run(actions).streams[id])
    ensures var s := Run(actions).streams[id];
            && (GaveUp(s) ==> Overloaded(actions, id))
            && (s.entry.Some? ==> (GaveUp(s) <==> Overloaded(actions, id)))
    decreases |actions|, 1
  {
    assert actions != [];
    var front, last := actions[..|actions| - 1], actions[|actions| - 1];
    var t := Run(front);
    RunKeepsInv(front);
    StepOfStream(t, last, id);
    if id in t.streams {
      StreamGaveUpIffOverloaded(actions, id, t.streams[id]);
    } else if Overloaded(front, id) {
      OverloadedIsOpen(front, id);
    }
    hide TableInv, StreamInv, Step, TableStep, MeetsOverload;
  }

  lemma {:induction false} StreamGaveUpIffOverloaded(actions: seq<TableAction>, id: int, s: Stream)
    requires actions != [] && id in Run(actions).streams && Countable(Run(actions).streams[id])
    requires var t := Run(actions[..|actions| - 1]); id in t.streams && s == t.streams[id] && StreamInv(s)
    requires TableInv(Run(actions[..|actions| - 1]))
    ensures var s' := Run(actions).streams[id];
            && (GaveUp(s') ==> Overloaded(actions, id))
            && (s'.entry.Some? ==> (GaveUp(s') <==> Overloaded(actions, id)))
    decreases |actions|, 0
  {
    var front, last := actions[..|actions| - 1], actions[|actions| - 1];
    var a := if last.On? then last.action else SessionEnds;
    StepOfStream(Run(front), last, id);
    StepKeepsCountable(s, a);
    hide TableInv, StreamInv, Step, TableStep, MeetsOverload, Countable, GaveUp;
    GaveUpIffOverloaded(front, id);
    if Run(actions).streams[id] != s {
      StepGivesUpIffOverload(s, a);
      GoneStaysGone(s, a);
    }
  }

  lemma GoneStaysGone(s: Stream, a: Action)
    ensures s.entry.None? ==> Step(s, a).entry.None?
  {
  }

  /** Every queued byte is accounted for and the limits hold; what was taken and is queued is a prefix of what came. */
  lemma QueueIsExact(actions: seq<TableAction>, id: int)
    requires id in Run(actions).streams
    requires var s := Run(actions).streams[id];
             && s.entry.Some?
             && (s.receive.limit < 0xFFFF_FFFF_FFFF_FFFF || |s.receive.read| <= 0xFFFF_FFFF_FFFF_FFFF)
    ensures var s := Run(actions).streams[id];
            var e := s.entry.value;
            && e.pendingBytes == |Flatten(e.chunks)| <= e.maxBytes && |e.chunks| <= e.maxMessages
            && IsPrefix(s.receive.taken + Flatten(e.chunks), s.receive.read)
            && (s.receive.taken + Flatten(e.chunks) == s.receive.read || (GaveUp(s) && Overloaded(actions, id)))
  {
    RunKeepsInv(actions);
    GaveUpIffOverloaded(actions, id);
    hide Run, Overloaded;
  }

  /** The action that opened the stream. */
  function OpeningOf(actions: seq<TableAction>, id: int): Option<TableAction> {
    if actions == [] then None
    else
      var front, last := actions[..|actions| - 1], actions[|actions| - 1];
      if Opens(last) && id == 1 + Openings(front) then Some(last) else OpeningOf(front, id)
  }

  predicate Opens(a: TableAction) {
    a.Open? && (a.hasReceive || a.hasSend)
  }

  /** How many streams were opened; they are numbered from one. */
  function Openings(actions: seq<TableAction>): nat {
    if actions == [] then 0
    else Openings(actions[..|actions| - 1]) + if Opens(actions[|actions| - 1]) then 1 else 0
  }

  /** A stream is of the session, has the directions, and keeps the limits it was opened with. */
  ghost predicate AsOpened(s: Stream, opening: TableAction) {
    && opening.Open?
    && s.receive.present == opening.hasReceive && s.send.present == opening.hasSend
    && s.receive.legacy.Some? == opening.legacy && s.receive.limit == opening.maxBytes
    && (s.entry.Some? ==>
          var e := s.entry.value;
          e.session == opening.session && e.maxMessages == opening.maxMessages && e.maxBytes == opening.maxBytes)
  }

  lemma StepKeepsOpening(s: Stream, a: Action, opening: TableAction)
    requires AsOpened(s, opening)
    ensures AsOpened(Step(s, a), opening)
  {
  }

  /** In every reachable table the streams are those that were opened, as they were opened. */
  lemma {:induction false} StreamsAreAsOpened(actions: seq<TableAction>, id: int)
    ensures id in Run(actions).streams <==> OpeningOf(actions, id).Some?
    ensures id in Run(actions).streams ==> AsOpened(Run(actions).streams[id], OpeningOf(actions, id).value)
    ensures Run(actions).nextId == 1 + Openings(actions)
    ensures id in Run(actions).streams ==> 0 < id <= Openings(actions)
  {
    if actions != [] {
      var front, last := actions[..|actions| - 1], actions[|actions| - 1];
      StreamsAreAsOpened(front, id);
      if id in Run(front).streams {
        var s, opening := Run(front).streams[id], OpeningOf(front, id).value;
        StepKeepsOpening(s, SessionEnds, opening);
        if last.On? {
          StepKeepsOpening(s, last.action, opening);
        }
      }
      hide Step;
    }
  }

  /** The end of a session takes exactly its own streams out of the table and leaves every other as it is. */
  lemma SessionEndRemovesItsStreams(actions: seq<TableAction>, session: int, id: int)
    requires id in Run(actions).streams
    ensures OpeningOf(actions, id).Some?
    ensures var s, s' := Run(actions).streams[id], TableStep(Run(actions), CloseSession(session)).streams[id];
            var opening := OpeningOf(actions, id).value;
            && opening.Open?
            && (s'.entry.Some? <==> s.entry.Some? && opening.session != session)
            && (opening.session != session ==> s' == s)
            && (opening.session == session && s.entry.Some? ==> s'.removal == BySession)
  {
    StreamsAreAsOpened(actions, id);
    hide Run, OpeningOf;
  }

  /**
   * Completed commands are a prefix of the accepted ones; while the send side is open nothing is dropped, and what is
   * dropped was behind a finish or reset.
   */
  lemma CommandsCompleteInOrder(actions: seq<TableAction>, id: int)
    requires id in Run(actions).streams
    ensures var s := Run(actions).streams[id];
            && |s.send.completed| <= |s.send.accepted| && s.send.accepted[..|s.send.completed|] == s.send.completed
            && (s.entry.Some? && !s.entry.value.sendClosed ==>
                  s.send.accepted == s.send.completed + InWork(s) + s.send.queue && |s.send.queue| <= COMMAND_CAPACITY)
            && (s.send.dropped != [] ==>
                  EndedByTerminalCommand(s) && s.send.accepted == s.send.completed + s.send.dropped)
  {
    RunKeepsInv(actions);
    hide Run;
    SendInvMeansOrder(Run(actions).streams[id]);
  }

  lemma SendInvMeansOrder(s: Stream)
    requires LifeInv(s) && SendInv(s)
    ensures |s.send.completed| <= |s.send.accepted| && s.send.accepted[..|s.send.completed|] == s.send.completed
    ensures s.send.dropped == [] ==> s.send.accepted == s.send.completed + InWork(s) + s.send.queue
    ensures s.send.dropped != [] ==> s.send.accepted == s.send.completed + s.send.dropped
  {
    assert s.send.accepted == s.send.completed + (InWork(s) + s.send.queue + s.send.dropped);
    if s.send.dropped == [] {
      assert s.send.completed + InWork(s) + s.send.queue + [] == s.send.completed + InWork(s) + s.send.queue;
    } else {
      assert s.send.completed + [] + [] + s.send.dropped == s.send.completed + s.send.dropped;
    }
  }
}
