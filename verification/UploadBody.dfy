/** The S3 PUT body that turns a native producer into frames of an exactly declared total length. */
module UploadBody {
  import opened Common
  import opened ByteStream

  // ---------------------------------------------------------------------------------------------
  // What a poll means
  // ---------------------------------------------------------------------------------------------

  datatype UploadError =
    | DescriptorRefused
    | NegativeLength
    | ExceededBy(excess: nat)
    | EndedEarly(missing: nat)
    | Source(error: StreamError)

  /** `doneRead` records that the producer reported its end. */
  datatype Upload = Upload(declared: nat, remaining: nat, completed: bool, emitted: Bytes, doneRead: bool)

  datatype Poll = Frame(bytes: Bytes) | End | Fault(error: UploadError)

  /** One poll of a body that is not completed, given what the producer returns. */
  function PollWith(u: Upload, read: Read): (Poll, Upload) {
    match read
    case Chunk(bytes) =>
      if |bytes| > u.remaining then (Fault(ExceededBy(|bytes| - u.remaining)), u)
      else (Frame(bytes), u.(remaining := u.remaining - |bytes|, emitted := u.emitted + bytes))
    case Done =>
      if u.remaining != 0 then (Fault(EndedEarly(u.remaining)), u.(doneRead := true))
      else (End, u.(completed := true, doneRead := true))
    case other => (Fault(Source(ErrorOf(other))), u)
  }

  /** A completed body answers by itself; any other asks the producer. */
  function PollOnce(u: Upload, script: seq<Read>): (Poll, Upload, seq<Read>) {
    if u.completed then (End, u, script)
    else
      var (poll, u') := PollWith(u, if script == [] then NullResult else script[0]);
      (poll, u', if script == [] then [] else script[1..])
  }

  /** The results of `count` polls in a row, oldest first. */
  function Polls(u: Upload, script: seq<Read>, count: nat): (seq<Poll>, Upload)
    decreases count
  {
    if count == 0 then ([], u)
    else
      var (poll, u', script') := PollOnce(u, script);
      var (more, last) := Polls(u', script', count - 1);
      ([poll] + more, last)
  }

  function BytesOf(poll: Poll): Bytes {
    if poll.Frame? then poll.bytes else []
  }

  function FrameBytes(polls: seq<Poll>): Bytes {
    if polls == [] then []
    else BytesOf(polls[0]) + FrameBytes(polls[1..])
  }

  /** The accounting every poll keeps. */
  ghost predicate Exact(u: Upload) {
    && |u.emitted| + u.remaining == u.declared
    && (u.completed ==> u.remaining == 0 && u.doneRead)
  }

  function Fresh(declared: nat): Upload {
    Upload(declared, declared, false, [], false)
  }

  lemma PollIsExact(u: Upload, script: seq<Read>)
    requires Exact(u)
    ensures var (poll, u', _) := PollOnce(u, script);
            && Exact(u') && u'.declared == u.declared
            && (poll == End <==> u'.completed)
            && (u'.completed ==> |u'.emitted| == u'.declared)
  {
  }

  lemma OnePollMore(u: Upload, script: seq<Read>, count: nat)
    requires count > 0
    ensures var (poll, u', script') := PollOnce(u, script);
            var (more, last) := Polls(u', script', count - 1);
            && Polls(u, script, count) == ([poll] + more, last)
            && (End in [poll] + more <==> poll == End || End in more)
  {
    hide PollOnce;
  }

  /**
   * Over any run of polls, errors included: the frames are what was emitted, emitted plus remaining is the declared
   * length, and an end is reported only with nothing remaining after the producer was done.
   */
  lemma {:induction false} PollsAreExact(u: Upload, script: seq<Read>, count: nat)
    requires Exact(u)
    ensures var (polls, last) := Polls(u, script, count);
            && Exact(last) && last.declared == u.declared
            && last.emitted == u.emitted + FrameBytes(polls)
            && (End in polls ==> last.completed)
            && (last.completed ==> |last.emitted| == last.declared)
            && (last.completed ==> u.completed || End in polls)
    decreases count
  {
    EmittedIsTheFrames(u, script, count);
    if count > 0 {
      hide PollOnce, Polls, FrameBytes;
      var (poll, u', script') := PollOnce(u, script);
      OnePollMore(u, script, count);
      PollIsExact(u, script);
      PollsAreExact(u', script', count - 1);
      hide Exact;
      if poll == End {
        EndIsIdempotent(u', script', count - 1);
      }
    }
  }

  lemma {:induction false} EmittedIsTheFrames(u: Upload, script: seq<Read>, count: nat)
    ensures var (polls, last) := Polls(u, script, count); last.emitted == u.emitted + FrameBytes(polls)
    decreases count
  {
    if count == 0 {
      assert u.emitted + [] == u.emitted;
    } else {
      var (poll, u', script') := PollOnce(u, script);
      var (more, last) := Polls(u', script', count - 1);
      EmittedIsTheFrames(u', script', count - 1);
      PollEmits(u, script);
      hide PollOnce, BytesOf;
      assert ([poll] + more)[1..] == more;
      Associate(u.emitted, BytesOf(poll), FrameBytes(more));
    }
  }

  lemma PollEmits(u: Upload, script: seq<Read>)
    ensures var (poll, u', _) := PollOnce(u, script); u'.emitted == u.emitted + BytesOf(poll)
  {
    assert u.emitted + [] == u.emitted;
  }

  lemma Associate(a: Bytes, b: Bytes, c: Bytes)
    ensures a + b + c == a + (b + c)
  {
  }

  /** Once an end was reported every later poll reports it again, without asking the producer. */
  lemma {:induction false} EndIsIdempotent(u: Upload, script: seq<Read>, count: nat)
    requires u.completed
    ensures var (polls, last) := Polls(u, script, count);
            last == u && |polls| == count && forall i :: 0 <= i < count ==> polls[i] == End
    decreases count
  {
    if count > 0 {
      EndIsIdempotent(u, script, count - 1);
    }
  }

  /** Chunks and then a regular end are emitted without a fault exactly when they add up to what remains. */
  lemma {:induction false} FaultFreeExactlyOnDeclaredLength(u: Upload, chunks: seq<Bytes>, script: seq<Read>)
    requires Exact(u) && !u.completed
    requires |script| == |chunks| + 1 && script[|chunks|] == Done
    requires forall i :: 0 <= i < |chunks| ==> script[i] == Chunk(chunks[i])
    ensures var (polls, last) := Polls(u, script, |script|);
            && ((forall poll :: poll in polls ==> !poll.Fault?) <==> |Flatten(chunks)| == u.remaining)
            && (|Flatten(chunks)| == u.remaining ==> last.completed && FrameBytes(polls) == Flatten(chunks))
    decreases |chunks|
  {
    var (poll, u', rest) := PollOnce(u, script);
    var (more, last) := Polls(u', rest, |script| - 1);
    var (polls, _) := Polls(u, script, |script|);
    assert polls == [poll] + more;
    assert polls[0] == poll && poll in polls;
    assert forall p :: p in polls <==> p == poll || p in more;
    assert polls[1..] == more;
    if chunks == [] {
      assert Polls(u', rest, 0) == ([], u');
    } else {
      assert Flatten(chunks) == chunks[0] + Flatten(chunks[1..]);
      if poll.Frame? {
        FaultFreeExactlyOnDeclaredLength(u', chunks[1..], rest);
      }
    }
  }

  /** The results the producer was asked for during these polls. */
  function Asked(u: Upload, script: seq<Read>, count: nat): seq<Read>
    decreases count
  {
    if count == 0 || u.completed || script == [] then []
    else [script[0]] + Asked(PollWith(u, script[0]).1, script[1..], count - 1)
  }

  /**
   * Which result decides each poll: a frame is the chunk that was asked for, an end or an early end answers the end
   * marker, every other result has its own error, and nothing more is asked only once the body is completed or the
   * producer returns null.
   */
  lemma {:induction false} EachPollAnswersItsResult(u: Upload, script: seq<Read>, count: nat, k: nat)
    requires k < count
    ensures var (polls, _) := Polls(u, script, count);
            var asked := Asked(u, script, count);
            && |polls| == count
            && (k < |asked| ==> Answers(polls[k], asked[k]))
            && (k >= |asked| ==> polls[k] == End || polls[k] == Fault(Source(NullRead)))
    decreases k
  {
    var (poll, u', rest) := PollOnce(u, script);
    var (more, _) := Polls(u', rest, count - 1);
    var (polls, _) := Polls(u, script, count);
    assert polls == [poll] + more;
    PollsAreMany(u', rest, count - 1);
    if u.completed {
      EndIsIdempotent(u, script, count);
    } else if k > 0 {
      EachPollAnswersItsResult(u', rest, count - 1, k - 1);
      assert polls[k] == more[k - 1];
      if script != [] {
        assert Asked(u, script, count) == [script[0]] + Asked(u', rest, count - 1);
      }
    }
  }

  lemma {:induction false} PollsAreMany(u: Upload, script: seq<Read>, count: nat)
    ensures |Polls(u, script, count).0| == count
    decreases count
  {
    if count > 0 {
      var (_, u', rest) := PollOnce(u, script);
      PollsAreMany(u', rest, count - 1);
    }
  }

  ghost predicate Answers(poll: Poll, read: Read) {
    && (poll.Frame? ==> read == Chunk(poll.bytes))
    && (poll == End || (poll.Fault? && poll.error.EndedEarly?) <==> read == Done)
    && (poll.Fault? && poll.error.ExceededBy? ==> read.Chunk?)
    && (poll == Fault(Source(StreamCanceled)) <==> read == Canceled)
    && (poll == Fault(Source(StreamFailed)) <==> read == Failed)
    && (poll == Fault(Source(InvalidBytes)) <==> read == InvalidChunk)
    && (poll == Fault(Source(StatusUnknown)) <==> read == UnknownStatus)
    && (poll == Fault(Source(NullRead)) <==> read == NullResult)
  }

  /** The body knows the producer's end exactly if the end marker was asked for, and completes only then. */
  lemma {:induction false} EndIsTheProducers(u: Upload, script: seq<Read>, count: nat)
    requires Exact(u)
    ensures var (_, last) := Polls(u, script, count);
            && (last.doneRead <==> u.doneRead || Done in Asked(u, script, count))
            && (last.completed && !u.completed ==> Done in Asked(u, script, count))
    decreases count
  {
    if count > 0 {
      var (_, u', rest) := PollOnce(u, script);
      PollIsExact(u, script);
      EndIsTheProducers(u', rest, count - 1);
      if u.completed {
        EndIsIdempotent(u, script, count);
      } else if script == [] {
        assert Asked(u', rest, count - 1) == [];
      } else {
        assert Asked(u, script, count) == [script[0]] + Asked(u', rest, count - 1);
      }
    }
  }

  function ChunkOf(read: Read): Bytes {
    if read.Chunk? then read.bytes else []
  }

  function ChunkBytes(asked: seq<Read>): Bytes {
    if asked == [] then [] else ChunkOf(asked[0]) + ChunkBytes(asked[1..])
  }

  /** A chunk that did not fit was given back unread. */
  predicate TooLong(poll: Poll) {
    poll.Fault? && poll.error.ExceededBy?
  }

  ghost predicate NothingTooLong(polls: seq<Poll>) {
    forall i :: 0 <= i < |polls| ==> !TooLong(polls[i])
  }

  lemma NothingTooLongCons(poll: Poll, more: seq<Poll>)
    ensures NothingTooLong([poll] + more) <==> !TooLong(poll) && NothingTooLong(more)
  {
    var polls := [poll] + more;
    assert polls[0] == poll && forall i :: 0 <= i < |more| ==> polls[i + 1] == more[i];
  }

  /**
   * Whatever the producer returns and however long a consumer polls, faults or not: the frames are all the chunk bytes
   * that were asked for exactly when no chunk was too long, and otherwise they are fewer.
   */
  lemma {:induction false} EverythingAskedIsEmittedIffNothingTooLong(u: Upload, script: seq<Read>, count: nat)
    ensures var (polls, _) := Polls(u, script, count);
            var asked := ChunkBytes(Asked(u, script, count));
            && (NothingTooLong(polls) <==> FrameBytes(polls) == asked)
            && (NothingTooLong(polls) <==> |FrameBytes(polls)| >= |asked|)
    decreases count
  {
    if count > 0 {
      var (poll, u', rest) := PollOnce(u, script);
      var (more, last) := Polls(u', rest, count - 1);
      EverythingAskedIsEmittedIffNothingTooLong(u', rest, count - 1);
      NothingTooLongCons(poll, more);
      PollTakesWhatIsAsked(u, script, count);
      assert ([poll] + more)[1..] == more;
      hide Polls, PollOnce, Asked, NothingTooLong, ChunkBytes;
      SameFront(BytesOf(poll), FrameBytes(more), ChunkBytes(Asked(u', rest, count - 1)));
    }
  }

  lemma SameFront(front: Bytes, a: Bytes, b: Bytes)
    ensures front + a == front + b <==> a == b
  {
    if front + a == front + b {
      assert a == (front + a)[|front|..] && b == (front + b)[|front|..];
    }
  }

  /** One poll: its frame is the chunk it asked for, unless that chunk is too long and then it is not empty. */
  lemma PollTakesWhatIsAsked(u: Upload, script: seq<Read>, count: nat)
    requires count > 0
    ensures var (poll, u', rest) := PollOnce(u, script);
            var asked, later := ChunkBytes(Asked(u, script, count)), ChunkBytes(Asked(u', rest, count - 1));
            && (!TooLong(poll) ==> asked == BytesOf(poll) + later)
            && (TooLong(poll) ==> BytesOf(poll) == [] && |asked| > |later|)
  {
    var (poll, u', rest) := PollOnce(u, script);
    if !u.completed && script != [] {
      var more := Asked(u', rest, count - 1);
      assert ([script[0]] + more)[1..] == more;
    }
  }

  /**
   * For chunks and then a regular end: a consumer that keeps polling, past faults if there are any, gets every byte and
   * the end exactly when the chunks add up to the declared length.
   */
  lemma EndWithEveryByteIffDeclaredLength(u: Upload, chunks: seq<Bytes>, script: seq<Read>)
    requires Exact(u) && !u.completed
    requires |script| == |chunks| + 1 && script[|chunks|] == Done
    requires forall i :: 0 <= i < |chunks| ==> script[i] == Chunk(chunks[i])
    ensures var (polls, _) := Polls(u, script, |script|);
            End in polls && FrameBytes(polls) == Flatten(chunks) <==> |Flatten(chunks)| == u.remaining
  {
    FaultFreeExactlyOnDeclaredLength(u, chunks, script);
    PollsAreExact(u, script, |script|);
    hide Polls, FrameBytes;
  }

  /** A consumer that polls on after a fault can be told the stream ended although a chunk was lost on the way. */
  lemma PollingPastAFaultCanLoseBytes()
    ensures var script := [Chunk([1, 2]), Chunk([3]), Done];
            var (polls, last) := Polls(Fresh(1), script, 3);
            polls == [Fault(ExceededBy(1)), Frame([3]), End] && last.completed && last.emitted == [3]
  {
    var u := Fresh(1);
    var script := [Chunk([1, 2]), Chunk([3]), Done];
    assert script[1..] == [Chunk([3]), Done] && script[1..][1..] == [Done];
    var u1 := u.(remaining := 0, emitted := [3]);
    var u2 := u1.(completed := true, doneRead := true);
    assert [] + [3] == [3];
    assert Polls(u2, [], 0) == ([], u2);
    assert [Done][1..] == [];
    assert PollOnce(u1, [Done]) == (End, u2, []);
    assert [End] + [] == [End] && [Frame([3])] + [End] == [Frame([3]), End];
    assert Polls(u1, [Done], 1) == ([End], u2);
    assert PollOnce(u, [Chunk([3]), Done]) == (Frame([3]), u1, [Done]);
    assert Polls(u, [Chunk([3]), Done], 2) == ([Frame([3]), End], u2);
  }

  // ---------------------------------------------------------------------------------------------
  // The body
  // ---------------------------------------------------------------------------------------------

  /** A frame that reads the producer's own allocation and gives it back when it is dropped. */
  class UploadFrame {
    const producer: Producer
    const bytes: Bytes
    ghost const id: nat

    constructor (producer: Producer, bytes: Bytes, ghost id: nat)
      ensures this.producer == producer && this.bytes == bytes && this.id == id
    {
      this.producer, this.bytes, this.id := producer, bytes, id;
    }

    method Drop()
      requires producer.Valid() && id in producer.held
      modifies producer
      ensures producer.Valid() && producer.held == old(producer.held) - {id}
      ensures producer.script == old(producer.script) && producer.released == old(producer.released)
      ensures producer.issued == old(producer.issued) && producer.cancels == old(producer.cancels)
    {
      producer.FreeRead(id);
    }
  }

  class NativeUploadBody {
    const producer: Producer
    var remaining: nat
    var completed: bool
    ghost const declared: nat
    ghost var emitted: Bytes
    ghost var doneRead: bool

    ghost function Abstract(): Upload
      reads this
    {
      Upload(declared, remaining, completed, emitted, doneRead)
    }

    ghost predicate Valid()
      reads this, producer
    {
      Exact(Abstract()) && producer.Valid() && !producer.released
    }

    constructor (producer: Producer, contentLength: nat)
      requires producer.Valid() && !producer.released
      ensures Valid() && this.producer == producer && Abstract() == Fresh(contentLength)
    {
      this.producer, remaining, completed := producer, contentLength, false;
      declared, emitted, doneRead := contentLength, [], false;
    }

    /** Only a frame keeps a result of the producer; every other outcome gives it back before returning. */
    method NextFrame() returns (r: Result<Option<UploadFrame>, UploadError>)
      requires Valid()
      modifies this, producer
      ensures Valid() && producer.cancels == old(producer.cancels)
      ensures var (poll, u, script) := PollOnce(old(Abstract()), old(producer.script));
              && Abstract() == u && producer.script == script
              && match poll
                 case Frame(bytes) =>
                   && r.Ok? && r.value.Some? && fresh(r.value.value)
                   && r.value.value.bytes == bytes && r.value.value.producer == producer
                   && r.value.value.id !in old(producer.held)
                   && producer.held == old(producer.held) + {r.value.value.id}
                 case End => r == Ok(None) && producer.held == old(producer.held)
                 case Fault(error) => r == Err(error) && producer.held == old(producer.held)
    {
      if completed {
        return Ok(None);
      }
      var read, id := producer.Next();
      if read == NullResult {
        return Err(Source(NullRead));
      }
      if read.Chunk? {
        if |read.bytes| > remaining {
          producer.FreeRead(id);
          assert producer.held == old(producer.held);
          return Err(ExceededBy(|read.bytes| - remaining));
        }
        remaining := remaining - |read.bytes|;
        emitted := emitted + read.bytes;
        var frame := new UploadFrame(producer, read.bytes, id);
        return Ok(Some(frame));
      }
      producer.FreeRead(id);
      assert producer.held == old(producer.held);
      if read == Done {
        doneRead := true;
        if remaining != 0 {
          return Err(EndedEarly(remaining));
        }
        completed := true;
        return Ok(None);
      }
      return Err(Source(ErrorOf(read)));
    }

    method Drop()
      requires Valid()
      modifies producer
      ensures producer.released && producer.held == old(producer.held) && producer.script == old(producer.script)
      ensures producer.cancels == old(producer.cancels) + if completed then 0 else 1
    {
      if !completed {
        producer.Cancel();
      }
      producer.Release();
    }
  }

  /** Adopts a stream: every outcome but a usable body cancels and releases it. `valid` is the descriptor's check. */
  method AdoptStream(producer: Producer, valid: bool, contentLength: int)
    returns (r: Result<NativeUploadBody, UploadError>)
    requires producer.Valid() && !producer.released
    modifies producer
    ensures r.Ok? <==> valid && 0 <= contentLength
    ensures r.Err? ==> r.error == if valid then NegativeLength else DescriptorRefused
    ensures r.Ok? ==> fresh(r.value) && r.value.Valid() && r.value.producer == producer
                      && r.value.Abstract() == Fresh(contentLength) && producer.cancels == old(producer.cancels)
    ensures r.Err? ==> producer.released && producer.cancels == old(producer.cancels) + 1
    ensures producer.script == old(producer.script) && producer.held == old(producer.held)
  {
    var body := new NativeUploadBody(producer, 0);
    if !valid {
      body.Drop();
      return Err(DescriptorRefused);
    }
    if contentLength < 0 {
      body.Drop();
      return Err(NegativeLength);
    }
    body := new NativeUploadBody(producer, contentLength);
    return Ok(body);
  }
}
