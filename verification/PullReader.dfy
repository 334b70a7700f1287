/** The blocking reader that an OpenAI-compatible upload pulls its audio through. */
module PullReader {
  import opened Common
  import opened ByteStream

  // ---------------------------------------------------------------------------------------------
  // What reading means
  // ---------------------------------------------------------------------------------------------

  /** The unread rest of the chunk in hand, and what the producer will still return. */
  datatype Source = Source(current: Bytes, script: seq<Read>)

  datatype Outcome = Returned(bytes: Bytes) | EndOfStream | ReadError(error: StreamError)

  /** Every byte still to be returned before the stream ends. */
  function Pending(s: Source): Bytes {
    s.current + Payload(s.script)
  }

  predicate EndsWell(r: Read) {
    r == Done || r == Canceled
  }

  /** One read into a buffer of `size` bytes: from the chunk in hand, or from the next non-empty one. */
  function ReadOnce(s: Source, size: nat): (Outcome, Source)
    requires 0 < size
    decreases |s.script|
  {
    if s.current != [] then
      var copied := Min(|s.current|, size);
      (Returned(s.current[..copied]), s.(current := s.current[copied..]))
    else if s.script == [] then (ReadError(NullRead), s)
    else
      var rest := s.script[1..];
      match s.script[0]
      case Chunk(bytes) => ReadOnce(Source(bytes, rest), size)
      case Done => (EndOfStream, Source([], rest))
      case Canceled => (EndOfStream, Source([], rest))
      case other => (ReadError(ErrorOf(other)), Source([], rest))
  }

  /** A read returns the next pending bytes, at least one, or the stream is at its end and the read says how. */
  lemma {:induction false} ReadOnceTakesPending(s: Source, size: nat)
    requires 0 < size
    ensures var (outcome, s') := ReadOnce(s, size);
            && (Pending(s) != [] <==> outcome.Returned?)
            && (outcome.Returned? ==>
                  && 0 < |outcome.bytes| <= size
                  && outcome.bytes + Pending(s') == Pending(s) && Ending(s'.script) == Ending(s.script))
            && (outcome.EndOfStream? <==> Pending(s) == [] && EndsWell(Ending(s.script)))
            && (outcome.ReadError? ==> outcome.error == ErrorOf(Ending(s.script)))
    decreases |s.script|
  {
    if s.current != [] {
      var copied := Min(|s.current|, size);
      assert s.current[..copied] + (s.current[copied..] + Payload(s.script)) == Pending(s);
    } else if s.script != [] && s.script[0].Chunk? {
      var next := Source(s.script[0].bytes, s.script[1..]);
      ReadOnceTakesPending(next, size);
      assert Pending(s) == Pending(next);
    }
  }

  /** The bytes returned by reads into buffers of the given sizes, stopping at the first read that returns none. */
  function ReadMany(s: Source, sizes: seq<nat>): (Bytes, Source)
    requires forall i :: 0 <= i < |sizes| ==> 0 < sizes[i]
    decreases |sizes|
  {
    if sizes == [] then ([], s)
    else
      var (outcome, s') := ReadOnce(s, sizes[0]);
      if !outcome.Returned? then ([], s)
      else var (more, last) := ReadMany(s', sizes[1..]); (outcome.bytes + more, last)
  }

  /** Whatever the buffer sizes and however the producer cut its chunks, nothing is lost, repeated or reordered. */
  lemma {:induction false} ReadManyLosesNothing(s: Source, sizes: seq<nat>)
    requires forall i :: 0 <= i < |sizes| ==> 0 < sizes[i]
    ensures var (got, last) := ReadMany(s, sizes);
            && got + Pending(last) == Pending(s)
            && Ending(last.script) == Ending(s.script)
            && |got| >= Min(|sizes|, |Pending(s)|)
    decreases |sizes|
  {
    if sizes == [] {
      assert [] + Pending(s) == Pending(s);
    } else {
      ReadOnceTakesPending(s, sizes[0]);
      var (outcome, s') := ReadOnce(s, sizes[0]);
      if outcome.Returned? {
        ReadManyLosesNothing(s', sizes[1..]);
        var (more, last) := ReadMany(s', sizes[1..]);
        assert outcome.bytes + more + Pending(last) == outcome.bytes + (more + Pending(last));
      } else {
        assert [] + Pending(s) == Pending(s);
      }
    }
  }

  // ---------------------------------------------------------------------------------------------
  // The reader
  // ---------------------------------------------------------------------------------------------

  /** How a read reports an outcome to its caller: the result, the completion mark and the caller's buffer. */
  ghost predicate Delivers(
    outcome: Outcome, r: Result<nat, StreamError>, completed: bool, before: Bytes, after: Bytes)
  {
    match outcome
    case Returned(bytes) => |bytes| <= |before| && r == Ok(|bytes|) && after == bytes + before[|bytes|..]
    case EndOfStream => r == Ok(0) && completed && after == before
    case ReadError(error) => r == Err(error) && after == before
  }

  lemma DeliversBytes(outcome: Outcome, completed: bool, bytes: Bytes, before: Bytes, after: Bytes)
    requires outcome == Returned(bytes) && |bytes| <= |before| && after == bytes + before[|bytes|..]
    ensures Delivers(outcome, Ok(|bytes|), completed, before, after)
  {
  }

  lemma DeliversEnd(outcome: Outcome, before: Bytes)
    requires outcome == EndOfStream
    ensures Delivers(outcome, Ok(0), true, before, before)
  {
  }

  lemma DeliversError(outcome: Outcome, completed: bool, error: StreamError, before: Bytes)
    requires outcome == ReadError(error)
    ensures Delivers(outcome, Err(error), completed, before, before)
  {
  }

  /** A chunk whose bytes still belong to the producer. */
  class ReadChunk {
    const bytes: Bytes
    ghost const id: nat
    var offset: nat

    constructor (bytes: Bytes, ghost id: nat)
      ensures this.bytes == bytes && this.id == id && offset == 0
    {
      this.bytes, this.id, offset := bytes, id, 0;
    }

    method CopyInto(output: array<byte>) returns (copied: nat)
      requires offset <= |bytes|
      modifies `offset, output
      ensures copied == Min(|bytes| - old(offset), output.Length) && offset == old(offset) + copied <= |bytes|
      ensures output[..] == bytes[old(offset)..offset] + old(output[copied..])
    {
      copied := Min(|bytes| - offset, output.Length);
      forall i | 0 <= i < copied {
        output[i] := bytes[offset + i];
      }
      offset := offset + copied;
    }
  }

  /** The cancellation flag an operation shares with its reader. */
  class CancelFlag {
    var canceled: bool

    constructor ()
      ensures !canceled
    {
      canceled := false;
    }
  }

  class NativeStreamReader {
    const producer: Producer
    const flag: CancelFlag
    var current: ReadChunk?
    var completed: bool

    /** At most one result is held, and it is the chunk being read. */
    ghost predicate Holding()
      reads this, producer, current
    {
      && producer.Valid() && !producer.released
      && producer.held == (if current == null then {} else {current.id})
      && (current != null ==> current.offset <= |current.bytes|)
    }

    /** Between reads the chunk in hand, if any, is not used up. */
    ghost predicate Valid()
      reads this, producer, current
    {
      Holding() && (current != null ==> current.offset < |current.bytes|)
    }

    ghost function Abstract(): Source
      reads this, producer, current
      requires Holding()
    {
      Source(if current == null then [] else current.bytes[current.offset..], producer.script)
    }

    constructor (producer: Producer, flag: CancelFlag)
      requires producer.Valid() && !producer.released && producer.held == {}
      ensures Valid() && !completed && this.producer == producer && this.flag == flag
      ensures Abstract() == Source([], producer.script)
    {
      this.producer, this.flag, current, completed := producer, flag, null, false;
    }

    /** Takes the next chunk from the producer, or learns that there is none; anything but a chunk is freed at once. */
    method NextRead() returns (r: Result<Option<ReadChunk>, StreamError>)
      requires Valid() && current == null
      modifies `completed, producer
      ensures producer.Valid() && !producer.released && producer.cancels == old(producer.cancels)
      ensures flag.canceled ==> r == Err(RequestCanceled) && completed == old(completed) && producer.held == {}
                                && producer.script == old(producer.script)
      ensures !flag.canceled ==>
                var script := old(producer.script);
                var read := if script == [] then NullResult else script[0];
                && producer.script == (if script == [] then [] else script[1..])
                && completed == (old(completed) || EndsWell(read))
                && if read.Chunk? then
                     && r.Ok? && r.value.Some? && fresh(r.value.value)
                     && r.value.value.bytes == read.bytes && r.value.value.offset == 0
                     && producer.held == {r.value.value.id}
                   else r == (if EndsWell(read) then Ok(None) else Err(ErrorOf(read))) && producer.held == {}
    {
      if flag.canceled {
        return Err(RequestCanceled);
      }
      var read, id := producer.Next();
      match read {
        case NullResult =>
          return Err(NullRead);
        case Chunk(bytes) =>
          var chunk := new ReadChunk(bytes, id);
          return Ok(Some(chunk));
        case Done =>
          producer.FreeRead(id);
          completed := true;
          return Ok(None);
        case Canceled =>
          producer.FreeRead(id);
          completed := true;
          return Ok(None);
        case _ =>
          producer.FreeRead(id);
          return Err(ErrorOf(read));
      }
    }

    /** Copies from the chunk in hand, and gives the chunk back once it is used up. */
    method CopyFromCurrent(output: array<byte>) returns (copied: nat)
      requires Holding() && current != null && output.Length > 0
      modifies `current, current, producer, output
      ensures Valid() && producer.cancels == old(producer.cancels)
      ensures current == old(current) || current == null
      ensures var before := old(Abstract());
              && copied == Min(|before.current|, output.Length)
              && Abstract() == before.(current := before.current[copied..])
              && output[..] == before.current[..copied] + old(output[copied..])
              && (copied == 0 ==> current == null)
    {
      copied := current.CopyInto(output);
      if current.offset >= |current.bytes| {
        producer.FreeRead(current.id);
        current := null;
      }
    }

    /** Fills the front of `output`; 0 means the buffer is empty or the stream is at its end. */
    method Read(output: array<byte>) returns (r: Result<nat, StreamError>)
      requires Valid()
      modifies this, producer, current, output
      ensures Valid() && producer.cancels == old(producer.cancels)
      ensures flag.canceled ==>
                r == Err(RequestCanceled) && Abstract() == old(Abstract()) && output[..] == old(output[..])
      ensures !flag.canceled && output.Length == 0 ==> r == Ok(0) && Abstract() == old(Abstract())
      ensures !flag.canceled && output.Length > 0 ==>
                var (outcome, after) := ReadOnce(old(Abstract()), output.Length);
                Abstract() == after && Delivers(outcome, r, completed, old(output[..]), output[..])
    {
      if flag.canceled {
        return Err(RequestCanceled);
      }
      if output.Length == 0 {
        return Ok(0);
      }
      hide Delivers;
      ghost var goal, before := ReadOnce(Abstract(), output.Length), output[..];
      while true
        invariant Holding() && producer.cancels == old(producer.cancels) && flag.canceled == old(flag.canceled)
        invariant current == old(current) || (current != null ==> fresh(current))
        invariant ReadOnce(Abstract(), output.Length) == goal
        invariant output[..] == before
        decreases |producer.script|
      {
        ghost var source := Abstract();
        if current != null {
          var copied := CopyFromCurrent(output);
          if copied > 0 {
            DeliversBytes(goal.0, completed, source.current[..copied], before, output[..]);
            return Ok(copied);
          }
        }
        assert output[..] == before;
        var next := NextRead();
        if next.Err? {
          DeliversError(goal.0, completed, next.error, before);
          return Err(next.error);
        }
        if next.value.None? {
          DeliversEnd(goal.0, before);
          return Ok(0);
        }
        current := next.value.value;
      }
    }

    /** Gives back the chunk in hand. */
    method FreeCurrent()
      requires Valid()
      modifies `current, producer
      ensures Valid() && current == null && producer.held == {}
      ensures producer.cancels == old(producer.cancels) && producer.script == old(producer.script)
    {
      if current != null {
        producer.FreeRead(current.id);
        current := null;
      }
    }

    /** Cancels a stream that was not read to its end, and releases it. */
    method Close()
      requires Valid() && current == null
      modifies producer
      ensures producer.Valid() && producer.held == {} && producer.released
      ensures producer.cancels == old(producer.cancels) + if completed then 0 else 1
      ensures producer.script == old(producer.script)
    {
      if !completed {
        producer.Cancel();
      }
      producer.Release();
    }

    /** What dropping the reader does to the stream; its registration is taken back in between. */
    method Drop()
      requires Valid()
      modifies this, producer
      ensures current == null && producer.held == {} && producer.released
      ensures producer.cancels == old(producer.cancels) + if completed then 0 else 1
      ensures completed == old(completed) && producer.script == old(producer.script)
    {
      FreeCurrent();
      Close();
    }
  }
}
