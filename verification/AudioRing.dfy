/** The drop-oldest circular byte buffer between a call and its media app, and the event ring of the same shape. */
module AudioRing {
  import opened Common

  // ---------------------------------------------------------------------------------------------
  // Circular layout
  // ---------------------------------------------------------------------------------------------

  /** `x` brought back into `0..capacity` by going around at most once. */
  function Wrap(x: nat, capacity: nat): nat {
    if x < capacity then x else x - capacity
  }

  lemma ModIsWrap(x: nat, capacity: nat)
    requires 0 < capacity && x < 2 * capacity
    ensures x % capacity == Wrap(x, capacity)
  {
    if capacity <= x {
      ModOnce(x - capacity, capacity);
    } else {
      SmallMod(x, capacity);
    }
  }

  lemma SmallMod(x: nat, capacity: nat)
    requires x < capacity
    ensures x % capacity == x
  {
  }

  /** The quotient is one, so the remainder is what is left. */
  lemma ModOnce(x: nat, capacity: nat)
    requires x < capacity
    ensures (capacity + x) % capacity == x
  {
    assert capacity + x == 1 * capacity + x;
  }

  /** The `length` elements that start at `start` and continue at the front of `buffer` after its end. */
  function View<T>(buffer: seq<T>, start: nat, length: nat): (view: seq<T>)
    requires start < |buffer| && length <= |buffer|
    ensures |view| == length
  {
    seq(length, i requires 0 <= i < length => buffer[Wrap(start + i, |buffer|)])
  }

  /** `buffer` with `input` written from `offset`, continuing at the front after the end. */
  function Overlay<T>(buffer: seq<T>, offset: nat, input: seq<T>): (written: seq<T>)
    requires offset < |buffer| && |input| <= |buffer|
  {
    seq(|buffer|, j requires 0 <= j < |buffer| =>
      var k := if offset <= j then j - offset else j + |buffer| - offset;
      if k < |input| then input[k] else buffer[j])
  }

  lemma KeepLastOneMore<T>(queue: seq<T>, x: T, capacity: nat)
    requires 0 < capacity && |queue| <= capacity
    ensures KeepLast(queue + [x], capacity) == (if |queue| == capacity then queue[1..] else queue) + [x]
  {
  }

  /** What is kept of a queue and an input, when the input is at least the capacity and when it is less. */
  lemma KeepLastOfConcat<T>(queue: seq<T>, input: seq<T>, capacity: nat)
    requires |queue| <= capacity
    ensures |input| >= capacity ==> KeepLast(queue + input, capacity) == input[|input| - capacity..]
    ensures |input| < capacity ==>
              KeepLast(queue + input, capacity) == queue[Max(|queue| + |input| - capacity, 0)..] + input
  {
  }

  /** What is kept of the queue, followed by what is taken of the input, is the end of both. */
  lemma KeptThenInput<T>(queue: seq<T>, input: seq<T>, capacity: nat, kept: seq<T>, from: nat, count: nat)
    requires |queue| <= capacity && count == Min(|input|, capacity) && from == |input| - count
    requires kept == if |input| >= capacity then [] else queue[Max(|queue| + |input| - capacity, 0)..]
    ensures kept + input[from..from + count] == KeepLast(queue + input, capacity)
  {
    KeepLastOfConcat(queue, input, capacity);
    assert input[from..from + count] == input[from..];
    hide KeepLast;
    if |input| >= capacity {
      assert kept + input[from..] == input[from..];
    } else {
      assert input[from..] == input;
    }
  }

  lemma OverlayOne<T>(buffer: seq<T>, offset: nat, x: T)
    requires offset < |buffer|
    ensures Overlay(buffer, offset, [x]) == buffer[offset := x]
  {
  }

  lemma ViewDrop<T>(buffer: seq<T>, start: nat, length: nat, k: nat)
    requires start < |buffer| && k <= length <= |buffer|
    ensures View(buffer, Wrap(start + k, |buffer|), length - k) == View(buffer, start, length)[k..]
  {
    var rest := View(buffer, Wrap(start + k, |buffer|), length - k);
    forall i | 0 <= i < length - k
      ensures rest[i] == View(buffer, start, length)[k + i]
    {
      assert rest[i] == buffer[Wrap(Wrap(start + k, |buffer|) + i, |buffer|)];
      assert View(buffer, start, length)[k + i] == buffer[Wrap(start + (k + i), |buffer|)];
    }
  }

  lemma ViewTake<T>(buffer: seq<T>, start: nat, length: nat, k: nat)
    requires start < |buffer| && k <= length <= |buffer|
    ensures View(buffer, start, k) == View(buffer, start, length)[..k]
  {
  }

  lemma ViewOverlay<T>(buffer: seq<T>, start: nat, length: nat, input: seq<T>)
    requires start < |buffer| && length + |input| <= |buffer|
    ensures View(Overlay(buffer, Wrap(start + length, |buffer|), input), start, length + |input|)
         == View(buffer, start, length) + input
  {
    var offset := Wrap(start + length, |buffer|);
    var written := Overlay(buffer, offset, input);
    var view := View(written, start, length + |input|);
    forall i | 0 <= i < length + |input|
      ensures view[i] == if i < length then View(buffer, start, length)[i] else input[i - length]
    {
      assert view[i] == written[Wrap(start + i, |buffer|)];
    }
  }

  // ---------------------------------------------------------------------------------------------
  // What each operation means
  // ---------------------------------------------------------------------------------------------

  /** The abstract ring: what is queued, oldest first, and the three statistics. */
  datatype Ring = Ring(queue: Bytes, overruns: nat, underruns: nat, dropped: nat)

  datatype Op =
    | Write(input: Bytes)
    | ReadExact(count: nat)
    | ReadPadded(count: nat)
    | Clear

  function AfterWrite(capacity: nat, r: Ring, input: Bytes): Ring {
    if input == [] then r
    else
      var lost := Max(0, |r.queue| + |input| - capacity);
      Ring(KeepLast(r.queue + input, capacity), if lost > 0 then r.overruns + 1 else r.overruns, r.underruns,
           r.dropped + lost)
  }

  /** The bytes an exact read delivers: all it asked for, or none. */
  function ExactDelivery(r: Ring, count: nat): Bytes {
    if count <= |r.queue| then r.queue[..count] else []
  }

  function AfterReadExact(r: Ring, count: nat): Ring {
    if count == 0 then r
    else if count <= |r.queue| then r.(queue := r.queue[count..])
    else r.(underruns := r.underruns + 1)
  }

  /** The queued bytes a padded read delivers before its zero padding. */
  function PaddedDelivery(r: Ring, count: nat): Bytes {
    r.queue[..Min(count, |r.queue|)]
  }

  function AfterReadPadded(r: Ring, count: nat): Ring {
    if count == 0 then r
    else Ring(r.queue[Min(count, |r.queue|)..], r.overruns,
              if |r.queue| < count then r.underruns + 1 else r.underruns, r.dropped)
  }

  // ---------------------------------------------------------------------------------------------
  // The imperative ring
  // ---------------------------------------------------------------------------------------------

  method MemoryCopy<T>(destination: array<T>, to: nat, source: array<T>, from: nat, count: nat)
    requires destination != source
    requires to + count <= destination.Length && from + count <= source.Length
    modifies destination
    ensures forall j :: 0 <= j < destination.Length ==>
              destination[j] == if to <= j < to + count then source[j - to + from] else old(destination[j])
  {
    var i := 0;
    while i < count
      invariant i <= count
      invariant forall j :: 0 <= j < destination.Length ==>
                  destination[j] == if to <= j < to + i then source[j - to + from] else old(destination[j])
    {
      destination[to + i] := source[from + i];
      i := i + 1;
    }
  }

  method MemoryZero(destination: array<byte>, from: nat, to: nat)
    requires from <= to <= destination.Length
    modifies destination
    ensures destination[..] == old(destination[..from]) + seq(to - from, _ => 0) + old(destination[to..])
  {
    for i := from to to
      invariant forall j :: 0 <= j < destination.Length ==>
                  destination[j] == if from <= j < i then 0 else old(destination[j])
    {
      destination[i] := 0;
    }
  }

  method CopyFromRing<T>(ring: array<T>, offset: nat, destination: array<T>, count: nat)
    requires ring != destination && offset < ring.Length && count <= ring.Length && count <= destination.Length
    modifies destination
    ensures forall j :: 0 <= j < destination.Length ==>
              destination[j] == if j < count then View(ring[..], offset, count)[j] else old(destination[j])
  {
    if count == 0 {
      return;
    }
    ghost var view := View(ring[..], offset, count);
    assert forall j :: 0 <= j < count ==> view[j] == ring[Wrap(offset + j, ring.Length)];
    var first := ring.Length - offset;
    if first > count {
      first := count;
    }
    MemoryCopy(destination, 0, ring, offset, first);
    if first < count {
      MemoryCopy(destination, first, ring, 0, count - first);
    }
  }

  method CopyIntoRing<T>(ring: array<T>, offset: nat, source: array<T>, from: nat, count: nat)
    requires ring != source && offset < ring.Length && count <= ring.Length && from + count <= source.Length
    modifies ring
    ensures ring[..] == Overlay(old(ring[..]), offset, source[from..from + count])
  {
    if count == 0 {
      return;
    }
    var first := ring.Length - offset;
    if first > count {
      first := count;
    }
    MemoryCopy(ring, offset, source, from, first);
    if first < count {
      MemoryCopy(ring, 0, source, from + first, count - first);
    }
  }

  class AudioRing {
    const bytes: array<byte>
    var start: nat
    var length: nat
    var overrunCount: nat
    var underrunCount: nat
    var droppedBytes: nat

    ghost predicate Valid()
      reads this
    {
      0 < bytes.Length && start < bytes.Length && length <= bytes.Length
    }

    /** The abstract ring this object stands for. */
    ghost function Abstract(): Ring
      reads this, bytes
      requires Valid()
    {
      Ring(View(bytes[..], start, length), overrunCount, underrunCount, droppedBytes)
    }

    constructor (capacity: nat)
      requires 0 < capacity
      ensures Valid() && fresh(bytes) && bytes.Length == capacity
      ensures Abstract() == Ring([], 0, 0, 0)
    {
      bytes := new byte[capacity](_ => 0);
      start, length, overrunCount, underrunCount, droppedBytes := 0, 0, 0, 0, 0;
    }

    method Clear()
      requires Valid()
      modifies this
      ensures Valid() && Abstract() == old(Abstract()).(queue := [])
    {
      start := 0;
      length := 0;
    }

    /** Moves the start of the ring over its `count` oldest bytes. */
    method DropOldest(count: nat)
      requires Valid() && count <= length
      modifies `start, `length
      ensures Valid() && length == old(length) - count
      ensures Abstract() == old(Abstract()).(queue := old(Abstract()).queue[count..])
    {
      ViewDrop(bytes[..], start, length, count);
      ModIsWrap(start + count, bytes.Length);
      start := (start + count) % bytes.Length;
      length := length - count;
    }

    /** Copies `count` bytes behind the newest one; they must fit. */
    method Append(input: array<byte>, from: nat, count: nat)
      requires Valid() && input != bytes && from + count <= input.Length && length + count <= bytes.Length
      modifies `length, bytes
      ensures Valid() && length == old(length) + count
      ensures Abstract() == old(Abstract()).(queue := old(Abstract()).queue + input[from..from + count])
    {
      ViewOverlay(bytes[..], start, length, input[from..from + count]);
      ModIsWrap(start + length, bytes.Length);
      CopyIntoRing(bytes, (start + length) % bytes.Length, input, from, count);
      length := length + count;
    }

    /** Appends all of `input`, dropping the oldest bytes that no longer fit. */
    method Write(input: array<byte>) returns (written: nat)
      requires Valid() && input != bytes
      modifies this, bytes
      ensures Valid() && Abstract() == AfterWrite(bytes.Length, old(Abstract()), input[..])
      ensures written == Min(input.Length, bytes.Length)
    {
      if input.Length == 0 {
        return 0;
      }
      hide View, Overlay, KeepLast;
      ghost var queue := Abstract().queue;
      var from, count, dropped := 0, input.Length, 0;
      if count >= bytes.Length {
        dropped := length + count - bytes.Length;
        from := count - bytes.Length;
        count := bytes.Length;
        start := 0;
        length := 0;
      }
      var available := bytes.Length - length;
      if available < count {
        var toDrop := count - available;
        dropped := dropped + toDrop;
        DropOldest(toDrop);
      }
      if dropped > 0 {
        overrunCount := overrunCount + 1;
        droppedBytes := droppedBytes + dropped;
      }
      ghost var kept := Abstract().queue;
      assert input.Length < bytes.Length ==> kept == queue[Max(|queue| + input.Length - bytes.Length, 0)..];
      KeptThenInput(queue, input[..], bytes.Length, kept, from, count);
      Append(input, from, count);
      assert input[..][from..from + count] == input[from..from + count];
      return count;
    }

    method ReadExact(destination: array<byte>, count: nat) returns (ok: bool)
      requires Valid() && destination != bytes && count <= destination.Length
      modifies this, destination
      ensures Valid() && Abstract() == AfterReadExact(old(Abstract()), count)
      ensures ok == (0 < count <= |old(Abstract()).queue|)
      ensures destination[..] ==
              if ok then ExactDelivery(old(Abstract()), count) + old(destination[count..]) else old(destination[..])
    {
      if count == 0 {
        return false;
      }
      if length < count {
        underrunCount := underrunCount + 1;
        return false;
      }
      ViewTake(bytes[..], start, length, count);
      ViewDrop(bytes[..], start, length, count);
      ModIsWrap(start + count, bytes.Length);
      CopyFromRing(bytes, start, destination, count);
      start := (start + count) % bytes.Length;
      length := length - count;
      return true;
    }

    /** Delivers what is queued, up to `count` bytes, and fills the rest of the request with zeros. */
    method ReadPadded(destination: array<byte>, count: nat) returns (delivered: nat)
      requires Valid() && destination != bytes && count <= destination.Length
      modifies this, destination
      ensures Valid() && Abstract() == AfterReadPadded(old(Abstract()), count)
      ensures delivered == |PaddedDelivery(old(Abstract()), count)|
      ensures destination[..] == PaddedDelivery(old(Abstract()), count)
                                 + seq(count - delivered, _ => 0) + old(destination[count..])
    {
      if count == 0 {
        return 0;
      }
      delivered := if length < count then length else count;
      if delivered > 0 {
        ViewTake(bytes[..], start, length, delivered);
        ViewDrop(bytes[..], start, length, delivered);
        ModIsWrap(start + delivered, bytes.Length);
        CopyFromRing(bytes, start, destination, delivered);
        start := (start + delivered) % bytes.Length;
        length := length - delivered;
      }
      if delivered < count {
        underrunCount := underrunCount + 1;
        ghost var rest := destination[count..];
        MemoryZero(destination, delivered, count);
        assert destination[count..] == rest;
      }
    }
  }

  // ---------------------------------------------------------------------------------------------
  // Whole runs
  // ---------------------------------------------------------------------------------------------

  /** A ring together with everything that went in, came out and was cleared since it was empty. */
  datatype Ledger = Ledger(ring: Ring, written: Bytes, delivered: Bytes, cleared: nat, writes: nat)

  function Execute(capacity: nat, ops: seq<Op>): Ledger {
    if ops == [] then Ledger(Ring([], 0, 0, 0), [], [], 0, 0)
    else ExecuteOne(capacity, Execute(capacity, ops[..|ops| - 1]), ops[|ops| - 1])
  }

  function ExecuteOne(capacity: nat, l: Ledger, op: Op): Ledger {
    match op
    case Write(input) =>
      l.(ring := AfterWrite(capacity, l.ring, input), written := l.written + input, writes := l.writes + 1)
    case ReadExact(count) =>
      l.(ring := AfterReadExact(l.ring, count), delivered := l.delivered + ExactDelivery(l.ring, count))
    case ReadPadded(count) =>
      l.(ring := AfterReadPadded(l.ring, count), delivered := l.delivered + PaddedDelivery(l.ring, count))
    case Clear => l.(ring := l.ring.(queue := []), cleared := l.cleared + |l.ring.queue|)
  }

  /** Every byte written is delivered, still queued, counted as dropped, or was cleared. */
  ghost predicate Balanced(capacity: nat, l: Ledger) {
    && |l.ring.queue| <= capacity
    && |l.written| == |l.delivered| + |l.ring.queue| + l.ring.dropped + l.cleared
    && l.ring.overruns <= Min(l.writes, l.ring.dropped)
  }

  /** What is queued is the newest end of what was written, and what was delivered came in order from before it. */
  ghost predicate InOrder(l: Ledger) {
    var older := |l.written| - |l.ring.queue|;
    0 <= older && l.written[older..] == l.ring.queue && Subsequence(l.delivered, l.written[..older])
  }

  lemma WriteKeepsOrder(capacity: nat, l: Ledger, input: Bytes)
    requires InOrder(l)
    ensures InOrder(ExecuteOne(capacity, l, Write(input)))
  {
    hide Subsequence;
    var l' := ExecuteOne(capacity, l, Write(input));
    var older, older' := |l.written| - |l.ring.queue|, |l'.written| - |l'.ring.queue|;
    assert l'.written[..older'] == l.written[..older] + l'.written[older..older'];
    SubsequenceLonger(l.delivered, l.written[..older], l'.written[older..older']);
  }

  lemma DeliveryKeepsOrder(l: Ledger, k: nat)
    requires InOrder(l) && k <= |l.ring.queue|
    ensures InOrder(l.(delivered := l.delivered + l.ring.queue[..k], ring := l.ring.(queue := l.ring.queue[k..])))
  {
    hide Subsequence;
    var older := |l.written| - |l.ring.queue|;
    assert l.written[..older + k] == l.written[..older] + l.ring.queue[..k];
    SubsequenceAppend(l.delivered, l.written[..older], l.ring.queue[..k]);
  }

  lemma StepKeepsOrder(capacity: nat, l: Ledger, op: Op)
    requires InOrder(l)
    ensures InOrder(ExecuteOne(capacity, l, op))
  {
    hide Subsequence;
    match op
    case Write(input) =>
      WriteKeepsOrder(capacity, l, input);
      hide InOrder, ExecuteOne;
    case ReadExact(count) =>
      DeliveryKeepsOrder(l, if count <= |l.ring.queue| then count else 0);
      assert count == 0 ==> l.ring.queue[count..] == l.ring.queue;
    case ReadPadded(count) =>
      DeliveryKeepsOrder(l, Min(count, |l.ring.queue|));
      assert count == 0 ==> l.ring.queue[count..] == l.ring.queue;
    case Clear =>
      ClearKeepsOrder(capacity, l);
      hide InOrder, ExecuteOne;
  }

  lemma ClearKeepsOrder(capacity: nat, l: Ledger)
    requires InOrder(l)
    ensures InOrder(ExecuteOne(capacity, l, Clear))
  {
    hide Subsequence;
    var older := |l.written| - |l.ring.queue|;
    assert l.written[..|l.written|] == l.written[..older] + l.ring.queue;
    SubsequenceLonger(l.delivered, l.written[..older], l.ring.queue);
  }

  lemma StepKeepsBalance(capacity: nat, l: Ledger, op: Op)
    requires 0 < capacity && Balanced(capacity, l)
    ensures Balanced(capacity, ExecuteOne(capacity, l, op))
  {
  }

  /** The ledger balances after any run, and nothing is delivered out of order or twice. */
  lemma {:induction false} RunAccountsForEveryByte(capacity: nat, ops: seq<Op>)
    requires 0 < capacity
    ensures Balanced(capacity, Execute(capacity, ops))
    ensures InOrder(Execute(capacity, ops))
  {
    if ops != [] {
      hide Balanced, InOrder;
      var front := ops[..|ops| - 1];
      RunAccountsForEveryByte(capacity, front);
      StepKeepsBalance(capacity, Execute(capacity, front), ops[|ops| - 1]);
      StepKeepsOrder(capacity, Execute(capacity, front), ops[|ops| - 1]);
    }
  }

  // --- the same run in numbers of bytes ---

  /** What a run amounts to when only sizes count: a write fills up to the capacity, a read takes what it can. */
  datatype Tally = Tally(level: nat, delivered: nat, dropped: nat, overflowing: nat, short: nat)

  function Count(capacity: nat, t: Tally, op: Op): Tally {
    match op
    case Write(input) =>
      if t.level + |input| <= capacity then t.(level := t.level + |input|)
      else
        t.(level := capacity, dropped := t.dropped + (t.level + |input| - capacity),
           overflowing := t.overflowing + 1)
    case ReadExact(count) =>
      if count <= t.level then t.(level := t.level - count, delivered := t.delivered + count)
      else t.(short := t.short + 1)
    case ReadPadded(count) =>
      if count <= t.level then t.(level := t.level - count, delivered := t.delivered + count)
      else t.(level := 0, delivered := t.delivered + t.level, short := t.short + 1)
    case Clear => t.(level := 0)
  }

  function Counted(capacity: nat, ops: seq<Op>): Tally {
    if ops == [] then Tally(0, 0, 0, 0, 0)
    else Count(capacity, Counted(capacity, ops[..|ops| - 1]), ops[|ops| - 1])
  }

  ghost predicate Agrees(l: Ledger, t: Tally) {
    && |l.ring.queue| == t.level && |l.delivered| == t.delivered
    && l.ring.dropped == t.dropped && l.ring.overruns == t.overflowing && l.ring.underruns == t.short
  }

  lemma StepAgrees(capacity: nat, l: Ledger, t: Tally, op: Op)
    requires 0 < capacity && Agrees(l, t) && t.level <= capacity
    ensures Agrees(ExecuteOne(capacity, l, op), Count(capacity, t, op)) && Count(capacity, t, op).level <= capacity
  {
  }

  /**
   * The counters count: after any run the overruns are the writes there was no room for, the underruns the reads that
   * asked for more than was queued, and a read delivers all it asks for or, if padded, all there is.
   */
  lemma {:induction false} CountersCount(capacity: nat, ops: seq<Op>)
    requires 0 < capacity
    ensures Agrees(Execute(capacity, ops), Counted(capacity, ops)) && Counted(capacity, ops).level <= capacity
  {
    if ops != [] {
      var front := ops[..|ops| - 1];
      CountersCount(capacity, front);
      hide Agrees, ExecuteOne, Count;
      StepAgrees(capacity, Execute(capacity, front), Counted(capacity, front), ops[|ops| - 1]);
    }
  }

  /** Splitting a write in two changes neither what is queued nor how many bytes are counted as dropped. */
  lemma SplitWrite(capacity: nat, r: Ring, a: Bytes, b: Bytes)
    requires 0 < capacity && |r.queue| <= capacity
    ensures var once := AfterWrite(capacity, r, a + b);
            var twice := AfterWrite(capacity, AfterWrite(capacity, r, a), b);
            && once.queue == twice.queue && once.dropped == twice.dropped && once.underruns == twice.underruns
            && (once.overruns == twice.overruns || once.overruns + 1 == twice.overruns)
  {
    if a == [] {
      assert a + b == b;
    } else if b == [] {
      assert a + b == a;
    } else {
      var all := r.queue + a + b;
      assert all == r.queue + (a + b);
      var first := KeepLast(r.queue + a, capacity);
      assert first + b == all[|all| - |first + b|..];
    }
  }

  // ---------------------------------------------------------------------------------------------
  // The event ring
  // ---------------------------------------------------------------------------------------------

  const MAX_EVENTS: nat := 256

  class EventRing<T(0)> {
    const events: array<T>
    var head: nat
    var count: nat

    ghost predicate Valid()
      reads this
    {
      events.Length == MAX_EVENTS && head < MAX_EVENTS && count <= MAX_EVENTS
    }

    ghost function Contents(): seq<T>
      reads this, events
      requires Valid()
    {
      View(events[..], head, count)
    }

    constructor ()
      ensures Valid() && fresh(events) && Contents() == []
    {
      events := new T[MAX_EVENTS];
      head, count := 0, 0;
    }

    method Push(event: T)
      requires Valid()
      modifies this, events
      ensures Valid() && Contents() == KeepLast(old(Contents()) + [event], MAX_EVENTS)
    {
      hide Overlay, View, KeepLast, Wrap;
      ghost var queue := Contents();
      KeepLastOneMore(queue, event, MAX_EVENTS);
      if count == MAX_EVENTS {
        ViewDrop(events[..], head, count, 1);
        ModIsWrap(head + 1, MAX_EVENTS);
        head := (head + 1) % MAX_EVENTS;
        count := count - 1;
      }
      ViewOverlay(events[..], head, count, [event]);
      ModIsWrap(head + count, MAX_EVENTS);
      var index := (head + count) % MAX_EVENTS;
      OverlayOne(events[..], index, event);
      events[index] := event;
      count := count + 1;
    }

    method Pop() returns (event: Option<T>)
      requires Valid()
      modifies this
      ensures Valid()
      ensures old(Contents()) == [] ==> event == None && Contents() == []
      ensures old(Contents()) != [] ==> event == Some(old(Contents())[0]) && Contents() == old(Contents())[1..]
    {
      if count == 0 {
        return None;
      }
      ViewDrop(events[..], head, count, 1);
      assert Contents()[0] == events[Wrap(head, MAX_EVENTS)];
      event := Some(events[head]);
      head := (head + 1) % MAX_EVENTS;
      count := count - 1;
    }
  }
}
