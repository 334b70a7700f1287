/** The queues a session's incoming messages wait in: two kinds share one message limit and one byte limit. */
module Ingress {
  import opened Common
  import opened StreamEntry

  /** `accepted` and `taken` are history, for each kind. */
  datatype Session = Session(
    datagrams: seq<Bytes>,
    streams: seq<Bytes>,
    pendingBytes: nat,
    maxMessages: nat,
    maxBytes: nat,
    acceptedDatagrams: seq<Bytes>,
    acceptedStreams: seq<Bytes>,
    takenDatagrams: seq<Bytes>,
    takenStreams: seq<Bytes>)

  function NewSession(maxMessages: nat, maxBytes: nat): Session {
    Session([], [], 0, maxMessages, maxBytes, [], [], [], [])
  }

  datatype Kind = Datagram | Stream

  datatype Action = Push(kind: Kind, body: Bytes) | Take(kind: Kind)

  predicate Refuses(s: Session, body: Bytes) {
    || SaturatingAdd(|s.datagrams|, |s.streams|) >= s.maxMessages
    || SaturatingAdd(s.pendingBytes, |body|) > s.maxBytes
  }

  function PushTo(s: Session, kind: Kind, body: Bytes): Session {
    if Refuses(s, body) then s
    else
      var counted := s.(pendingBytes := SaturatingAdd(s.pendingBytes, |body|));
      match kind
      case Datagram =>
        counted.(datagrams := s.datagrams + [body], acceptedDatagrams := s.acceptedDatagrams + [body])
      case Stream => counted.(streams := s.streams + [body], acceptedStreams := s.acceptedStreams + [body])
  }

  function TakeFrom(s: Session, kind: Kind): Session {
    match kind
    case Datagram =>
      if s.datagrams == [] then s
      else s.(datagrams := s.datagrams[1..], takenDatagrams := s.takenDatagrams + [s.datagrams[0]],
              pendingBytes := SaturatingSub(s.pendingBytes, |s.datagrams[0]|))
    case Stream =>
      if s.streams == [] then s
      else s.(streams := s.streams[1..], takenStreams := s.takenStreams + [s.streams[0]],
              pendingBytes := SaturatingSub(s.pendingBytes, |s.streams[0]|))
  }

  function Step(s: Session, a: Action): Session {
    match a
    case Push(kind, body) => PushTo(s, kind, body)
    case Take(kind) => TakeFrom(s, kind)
  }

  function Run(s: Session, actions: seq<Action>): Session {
    if actions == [] then s else Step(Run(s, actions[..|actions| - 1]), actions[|actions| - 1])
  }

  /** No byte count can saturate: the limit is below the largest size, or fewer bytes than that were accepted at all. */
  predicate Countable(s: Session) {
    s.maxBytes < USIZE_MAX || |Flatten(s.acceptedDatagrams)| + |Flatten(s.acceptedStreams)| <= USIZE_MAX
  }

  ghost predicate Inv(s: Session) {
    && s.maxBytes <= USIZE_MAX && s.maxMessages <= USIZE_MAX
    && |s.datagrams| + |s.streams| <= s.maxMessages
    && s.acceptedDatagrams == s.takenDatagrams + s.datagrams
    && s.acceptedStreams == s.takenStreams + s.streams
    && (Countable(s) ==> s.pendingBytes == |Flatten(s.datagrams)| + |Flatten(s.streams)| <= s.maxBytes)
  }

  /** The queued bytes are among the accepted ones. */
  lemma QueuedWasAccepted(s: Session)
    requires Inv(s)
    ensures |Flatten(s.datagrams)| <= |Flatten(s.acceptedDatagrams)|
    ensures |Flatten(s.streams)| <= |Flatten(s.acceptedStreams)|
  {
    FlattenConcat(s.takenDatagrams, s.datagrams);
    FlattenConcat(s.takenStreams, s.streams);
    hide Flatten;
  }

  lemma FlattenPush(chunks: seq<Bytes>, body: Bytes)
    ensures |Flatten(chunks + [body])| == |Flatten(chunks)| + |body|
  {
    FlattenConcat(chunks, [body]);
    FlattenOne(body);
  }

  lemma PushKeepsInv(s: Session, kind: Kind, body: Bytes)
    requires Inv(s)
    ensures Inv(PushTo(s, kind, body))
  {
    QueuedWasAccepted(s);
    FlattenPush(s.datagrams, body);
    FlattenPush(s.streams, body);
    FlattenPush(s.acceptedDatagrams, body);
    FlattenPush(s.acceptedStreams, body);
    hide Flatten;
  }

  /** As long as the true sum is a representable size, a message is refused exactly when it passes a limit. */
  lemma RefusedIffOverALimit(s: Session, body: Bytes)
    requires Inv(s) && Countable(s)
    requires s.maxBytes < USIZE_MAX || s.pendingBytes + |body| <= USIZE_MAX
    ensures Refuses(s, body) <==>
            || |s.datagrams| + |s.streams| == s.maxMessages
            || |Flatten(s.datagrams)| + |Flatten(s.streams)| + |body| > s.maxBytes
  {
    hide Flatten;
  }

  lemma TakeKeepsInv(s: Session, kind: Kind)
    requires Inv(s)
    ensures Inv(TakeFrom(s, kind))
  {
    if s.datagrams != [] {
      JoinIsAssociative(s.takenDatagrams, [s.datagrams[0]], s.datagrams[1..]);
    }
    if s.streams != [] {
      JoinIsAssociative(s.takenStreams, [s.streams[0]], s.streams[1..]);
    }
  }

  /**
   * Over any run each kind is delivered in the order it was accepted, with nothing lost or repeated; the byte count is
   * the true size of both queues, and both limits hold.
   */
  lemma {:induction false} RunKeepsInv(maxMessages: nat, maxBytes: nat, actions: seq<Action>)
    requires maxBytes <= USIZE_MAX && maxMessages <= USIZE_MAX
    ensures Inv(Run(NewSession(maxMessages, maxBytes), actions))
  {
    hide Inv, PushTo, TakeFrom;
    if actions == [] {
      NewSessionInv(maxMessages, maxBytes);
    } else {
      RunKeepsInv(maxMessages, maxBytes, actions[..|actions| - 1]);
      var s := Run(NewSession(maxMessages, maxBytes), actions[..|actions| - 1]);
      match actions[|actions| - 1]
      case Push(kind, body) => PushKeepsInv(s, kind, body);
      case Take(kind) => TakeKeepsInv(s, kind);
    }
  }

  lemma NewSessionInv(maxMessages: nat, maxBytes: nat)
    requires maxBytes <= USIZE_MAX && maxMessages <= USIZE_MAX
    ensures Inv(NewSession(maxMessages, maxBytes))
  {
  }

  function QueueOf(s: Session, kind: Kind): seq<Bytes> {
    if kind == Datagram then s.datagrams else s.streams
  }

  function AcceptedOf(s: Session, kind: Kind): seq<Bytes> {
    if kind == Datagram then s.acceptedDatagrams else s.acceptedStreams
  }

  function TakenOf(s: Session, kind: Kind): seq<Bytes> {
    if kind == Datagram then s.takenDatagrams else s.takenStreams
  }

  /** A message joins the end of its own kind's queue, or is refused and changes nothing. */
  lemma PushJoinsItsQueue(s: Session, kind: Kind, body: Bytes, other: Kind)
    requires other != kind
    ensures var s' := Step(s, Push(kind, body));
            && (if Refuses(s, body) then s' == s
                else
                  && QueueOf(s', kind) == QueueOf(s, kind) + [body]
                  && AcceptedOf(s', kind) == AcceptedOf(s, kind) + [body])
            && QueueOf(s', other) == QueueOf(s, other) && AcceptedOf(s', other) == AcceptedOf(s, other)
            && TakenOf(s', kind) == TakenOf(s, kind) && TakenOf(s', other) == TakenOf(s, other)
  {
  }

  lemma RunMore(s: Session, actions: seq<Action>, a: Action)
    ensures Run(s, actions + [a]) == Step(Run(s, actions), a)
  {
    assert (actions + [a])[..|actions|] == actions;
  }

  /** One take after the other hands out what is queued, the oldest first, and leaves the other kind alone. */
  lemma {:induction false} QueuedCanBeTaken(s: Session, kind: Kind, other: Kind, n: nat) returns (takes: seq<Action>)
    requires other != kind && n <= |QueueOf(s, kind)|
    ensures var s' := Run(s, takes);
            && TakenOf(s', kind) == TakenOf(s, kind) + QueueOf(s, kind)[..n]
            && QueueOf(s', kind) == QueueOf(s, kind)[n..]
            && TakenOf(s', other) == TakenOf(s, other) && QueueOf(s', other) == QueueOf(s, other)
  {
    if n == 0 {
      assert TakenOf(s, kind) + QueueOf(s, kind)[..0] == TakenOf(s, kind);
      takes := [];
    } else {
      var front := QueuedCanBeTaken(s, kind, other, n - 1);
      var s1 := Run(s, front);
      RunMore(s, front, Take(kind));
      assert QueueOf(s, kind)[..n] == QueueOf(s, kind)[..n - 1] + [QueueOf(s, kind)[n - 1]];
      assert QueueOf(s1, kind)[0] == QueueOf(s, kind)[n - 1];
      assert QueueOf(s1, kind)[1..] == QueueOf(s, kind)[n..];
      JoinIsAssociative(TakenOf(s, kind), QueueOf(s, kind)[..n - 1], [QueueOf(s, kind)[n - 1]]);
      takes := front + [Take(kind)];
    }
  }

  /**
   * Over any run the byte count is the size of both queues and both limits hold, for the largest byte limit too as long
   * as no more bytes were accepted than a size can count.
   */
  lemma PendingIsExact(maxMessages: nat, maxBytes: nat, actions: seq<Action>)
    requires maxBytes <= USIZE_MAX && maxMessages <= USIZE_MAX
    requires var s := Run(NewSession(maxMessages, maxBytes), actions);
             || maxBytes < 0xFFFF_FFFF_FFFF_FFFF
             || |Flatten(s.acceptedDatagrams)| + |Flatten(s.acceptedStreams)| <= 0xFFFF_FFFF_FFFF_FFFF
    ensures var s := Run(NewSession(maxMessages, maxBytes), actions);
            && s.pendingBytes == |Flatten(s.datagrams)| + |Flatten(s.streams)| <= maxBytes
            && |s.datagrams| + |s.streams| <= maxMessages
  {
    RunKeepsInv(maxMessages, maxBytes, actions);
    RunKeepsLimits(NewSession(maxMessages, maxBytes), actions);
    hide Run, Flatten;
  }

  lemma {:induction false} RunKeepsLimits(s: Session, actions: seq<Action>)
    ensures Run(s, actions).maxBytes == s.maxBytes && Run(s, actions).maxMessages == s.maxMessages
  {
    if actions != [] {
      RunKeepsLimits(s, actions[..|actions| - 1]);
    }
  }

  /** The locked object. A WebSocket session is one that only ever uses the first queue. */
  class SessionQueues {
    const maxMessages: nat
    const maxBytes: nat
    var datagrams: seq<Bytes>
    var streams: seq<Bytes>
    var pendingBytes: nat
    ghost var state: Session

    ghost predicate Valid()
      reads this
    {
      && Inv(state) && state.maxMessages == maxMessages && state.maxBytes == maxBytes
      && state.datagrams == datagrams && state.streams == streams && state.pendingBytes == pendingBytes
    }

    constructor (maxMessages: nat, maxBytes: nat)
      requires maxBytes <= USIZE_MAX && maxMessages <= USIZE_MAX
      ensures Valid() && state == NewSession(maxMessages, maxBytes)
    {
      this.maxMessages, this.maxBytes := maxMessages, maxBytes;
      datagrams, streams, pendingBytes := [], [], 0;
      state := NewSession(maxMessages, maxBytes);
    }

    method Push(kind: Kind, body: Bytes) returns (accepted: bool)
      requires Valid()
      modifies this
      ensures Valid() && state == PushTo(old(state), kind, body)
      ensures accepted <==> !Refuses(old(state), body)
      ensures Countable(old(state)) && (maxBytes < USIZE_MAX || old(pendingBytes) + |body| <= USIZE_MAX) ==>
                (accepted <==> |old(datagrams)| + |old(streams)| < maxMessages
                               && |Flatten(old(datagrams))| + |Flatten(old(streams))| + |body| <= maxBytes)
      ensures datagrams == if accepted && kind == Datagram then old(datagrams) + [body] else old(datagrams)
      ensures streams == if accepted && kind == Stream then old(streams) + [body] else old(streams)
    {
      PushKeepsInv(state, kind, body);
      if Countable(state) && (maxBytes < USIZE_MAX || pendingBytes + |body| <= USIZE_MAX) {
        RefusedIffOverALimit(state, body);
      }
      hide Inv, Countable, Flatten;
      var nextBytes := SaturatingAdd(pendingBytes, |body|);
      if SaturatingAdd(|datagrams|, |streams|) >= maxMessages || nextBytes > maxBytes {
        return false;
      }
      pendingBytes := nextBytes;
      match kind {
        case Datagram => datagrams := datagrams + [body];
        case Stream => streams := streams + [body];
      }
      state := PushTo(state, kind, body);
      accepted := true;
    }

    method TakeDatagram() returns (body: Option<Bytes>)
      requires Valid()
      modifies this
      ensures Valid() && state == TakeFrom(old(state), Datagram)
      ensures if old(datagrams) == [] then body == None && datagrams == []
              else body == Some(old(datagrams)[0]) && datagrams == old(datagrams)[1..]
      ensures streams == old(streams)
    {
      TakeKeepsInv(state, Datagram);
      if datagrams == [] {
        return None;
      }
      state := TakeFrom(state, Datagram);
      body := Some(datagrams[0]);
      pendingBytes := SaturatingSub(pendingBytes, |datagrams[0]|);
      datagrams := datagrams[1..];
    }

    method TakeStream() returns (body: Option<Bytes>)
      requires Valid()
      modifies this
      ensures Valid() && state == TakeFrom(old(state), Stream)
      ensures if old(streams) == [] then body == None && streams == []
              else body == Some(old(streams)[0]) && streams == old(streams)[1..]
      ensures datagrams == old(datagrams)
    {
      TakeKeepsInv(state, Stream);
      if streams == [] {
        return None;
      }
      state := TakeFrom(state, Stream);
      body := Some(streams[0]);
      pendingBytes := SaturatingSub(pendingBytes, |streams[0]|);
      streams := streams[1..];
    }
  }
}
