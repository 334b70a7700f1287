/** The native pull-stream contract, the in-memory producer, and the consumer that reads a stream to its end. */
module ByteStream {
  import opened Common

  /** What one `next` callback can return. */
  datatype Read =
    | Chunk(bytes: Bytes)
    | InvalidChunk
    | Done
    | Canceled
    | Failed
    | UnknownStatus
    | NullResult

  /** The bytes of the chunks before the first result of another kind. */
  function Payload(script: seq<Read>): Bytes {
    if script == [] || !script[0].Chunk? then [] else script[0].bytes + Payload(script[1..])
  }

  /** The first result that is not a chunk; a producer with nothing left to say returns null. */
  function Ending(script: seq<Read>): (ending: Read)
    ensures !ending.Chunk?
  {
    if script == [] then NullResult
    else if script[0].Chunk? then Ending(script[1..])
    else script[0]
  }

  /** What is left to return once the ending was returned. */
  function AfterEnding(script: seq<Read>): seq<Read> {
    if script == [] then [] else if script[0].Chunk? then AfterEnding(script[1..]) else script[1..]
  }

  function Chunks(chunks: seq<Bytes>): seq<Read> {
    if chunks == [] then [] else [Chunk(chunks[0])] + Chunks(chunks[1..])
  }

  /** Any chunks, then any other result, then anything: how a script that ends is told apart from one that runs out. */
  lemma {:induction false} ChunksThenEnding(chunks: seq<Bytes>, ending: Read, rest: seq<Read>)
    requires !ending.Chunk?
    ensures var script := Chunks(chunks) + ([ending] + rest);
            Payload(script) == Flatten(chunks) && Ending(script) == ending && AfterEnding(script) == rest
    ensures var script := Chunks(chunks);
            Payload(script) == Flatten(chunks) && Ending(script) == NullResult && AfterEnding(script) == []
    decreases |chunks|
  {
    var tail := [ending] + rest;
    if chunks == [] {
      assert Chunks(chunks) + tail == tail && tail[1..] == rest;
    } else {
      var more := Chunks(chunks[1..]);
      ChunksThenEnding(chunks[1..], ending, rest);
      assert Chunks(chunks) + tail == [Chunk(chunks[0])] + (more + tail);
      assert ([Chunk(chunks[0])] + (more + tail))[1..] == more + tail;
      assert Chunks(chunks)[1..] == more;
    }
  }

  /**
   * A producer behind a descriptor. Its preconditions are the obligations of whoever holds the descriptor:
   * `next` and `cancel` only before the one `release`, and `free_read` once for each result handed out.
   */
  class Producer {
    /** The results of the coming `next` calls; any sequence at all. */
    var script: seq<Read>
    /** The numbers of the results handed out and not freed yet. */
    ghost var held: set<nat>
    ghost var issued: nat
    ghost var cancels: nat
    ghost var released: bool

    ghost predicate Valid()
      reads this
    {
      forall id :: id in held ==> id < issued
    }

    constructor (script: seq<Read>)
      ensures Valid() && this.script == script && held == {} && issued == 0 && cancels == 0 && !released
    {
      this.script, held, issued, cancels, released := script, {}, 0, 0, false;
    }

    method Next() returns (r: Read, ghost id: nat)
      requires Valid() && !released
      modifies this
      ensures Valid() && !released && cancels == old(cancels)
      ensures r == (if old(script) == [] then NullResult else old(script)[0])
      ensures script == if old(script) == [] then [] else old(script)[1..]
      ensures id == old(issued) && id !in old(held)
      ensures r == NullResult ==> held == old(held) && issued == old(issued)
      ensures r != NullResult ==> held == old(held) + {id} && issued == old(issued) + 1
    {
      id := issued;
      if script == [] {
        return NullResult, id;
      }
      r, script := script[0], script[1..];
      if r != NullResult {
        held, issued := held + {id}, issued + 1;
      }
    }

    method FreeRead(ghost id: nat)
      requires Valid() && id in held
      modifies this
      ensures Valid() && held == old(held) - {id}
      ensures script == old(script) && issued == old(issued) && cancels == old(cancels) && released == old(released)
    {
      held := held - {id};
    }

    method Cancel()
      requires Valid() && !released
      modifies this
      ensures Valid() && cancels == old(cancels) + 1
      ensures script == old(script) && held == old(held) && issued == old(issued) && !released
    {
      cancels := cancels + 1;
    }

    method Release()
      requires Valid() && !released
      modifies this
      ensures Valid() && released
      ensures script == old(script) && held == old(held) && issued == old(issued) && cancels == old(cancels)
    {
      released := true;
    }
  }

  // ---------------------------------------------------------------------------------------------
  // The in-memory producer
  // ---------------------------------------------------------------------------------------------

  const MEMORY_CHUNK_SIZE: nat := 64 * 1024

  /** What an in-memory stream returns from `offset` on, up to and including its first end marker. */
  function MemoryScript(bytes: Bytes, offset: nat): seq<Read>
    decreases |bytes| - offset
  {
    if offset >= |bytes| then [Done]
    else
      var end := Min(offset + MEMORY_CHUNK_SIZE, |bytes|);
      [Chunk(bytes[offset..end])] + MemoryScript(bytes, end)
  }

  /** A script is never empty, and its end marker is its last result. */
  lemma ScriptHead(bytes: Bytes, offset: nat)
    ensures var script := MemoryScript(bytes, offset);
            script != [] && (script[0] == Done ==> script == [Done])
  {
  }

  lemma TakeFirst(done: seq<Read>, rest: seq<Read>)
    requires rest != []
    ensures done + rest == (done + [rest[0]]) + rest[1..]
    ensures rest == [rest[0]] ==> done + rest == done + [rest[0]]
  {
  }

  class MemoryStream {
    const bytes: Bytes
    var offset: nat
    var canceled: bool

    ghost predicate Valid()
      reads this
    {
      offset <= |bytes|
    }

    constructor (bytes: Bytes)
      ensures Valid() && this.bytes == bytes && offset == 0 && !canceled
    {
      this.bytes, offset, canceled := bytes, 0, false;
    }

    method Next() returns (r: Read)
      requires Valid()
      modifies `offset
      ensures Valid()
      ensures canceled ==> r == Canceled && offset == old(offset)
      ensures !canceled ==> r == MemoryScript(bytes, old(offset))[0]
      ensures !canceled ==> MemoryScript(bytes, offset)
                            == if r == Done then [Done] else MemoryScript(bytes, old(offset))[1..]
    {
      if canceled {
        return Canceled;
      }
      if offset >= |bytes| {
        return Done;
      }
      var start := offset;
      var end := Min(start + MEMORY_CHUNK_SIZE, |bytes|);
      offset := end;
      return Chunk(bytes[start..end]);
    }

    /** The results of its `next` calls from here to its end marker. */
    method Results() returns (results: seq<Read>)
      requires Valid() && !canceled
      modifies `offset
      ensures Valid() && results == MemoryScript(bytes, old(offset))
    {
      hide MemoryScript;
      ghost var script := MemoryScript(bytes, offset);
      results := [];
      while true
        invariant Valid() && results + MemoryScript(bytes, offset) == script
        decreases |MemoryScript(bytes, offset)|
        modifies `offset
      {
        ghost var rest := MemoryScript(bytes, offset);
        ScriptHead(bytes, offset);
        TakeFirst(results, rest);
        var read := Next();
        results := results + [read];
        if read == Done {
          return;
        }
      }
    }

    method Cancel()
      modifies `canceled
      ensures canceled
    {
      canceled := true;
    }
  }

  /** The chunks of an in-memory stream are its bytes, each chunk non-empty and at most 64 KiB, and then it is done. */
  lemma {:induction false} MemoryScriptIsTheBytes(bytes: Bytes, offset: nat)
    requires offset <= |bytes|
    ensures var script := MemoryScript(bytes, offset);
            && Payload(script) == bytes[offset..]
            && Ending(script) == Done && AfterEnding(script) == []
            && forall i :: 0 <= i < |script| - 1 ==> script[i].Chunk? && 0 < |script[i].bytes| <= MEMORY_CHUNK_SIZE
    decreases |bytes| - offset
  {
    if offset < |bytes| {
      var end := Min(offset + MEMORY_CHUNK_SIZE, |bytes|);
      MemoryScriptIsTheBytes(bytes, end);
      assert bytes[offset..] == bytes[offset..end] + bytes[end..];
      var script, rest := MemoryScript(bytes, offset), MemoryScript(bytes, end);
      assert script[1..] == rest;
      assert forall i :: 1 <= i < |script| ==> script[i] == rest[i - 1];
    }
  }

  // ---------------------------------------------------------------------------------------------
  // Reading to the end
  // ---------------------------------------------------------------------------------------------

  datatype StreamError =
    | InvalidDescriptor | NullRead | InvalidBytes | StreamCanceled | StreamFailed | StatusUnknown | RequestCanceled

  /** The error a consumer reports for a result that is neither a chunk nor an accepted end. */
  function ErrorOf(r: Read): StreamError {
    match r
    case InvalidChunk => InvalidBytes
    case Canceled => StreamCanceled
    case Failed => StreamFailed
    case NullResult => NullRead
    case _ => StatusUnknown
  }

  class OwnedStream {
    const producer: Producer
    var completed: bool
    var transferred: bool

    ghost predicate Valid()
      reads this, producer
    {
      producer.Valid() && (!transferred ==> !producer.released)
    }

    constructor (producer: Producer)
      requires producer.Valid() && !producer.released
      ensures Valid() && this.producer == producer && !completed && !transferred
    {
      this.producer, completed, transferred := producer, false, false;
    }

    /** Hands the descriptor, and with it the duty to release, to the caller. */
    method IntoDescriptor() returns (p: Producer)
      requires Valid() && !transferred
      modifies `transferred
      ensures Valid() && transferred && p == producer
    {
      transferred := true;
      return producer;
    }

    method Drop()
      requires Valid()
      modifies producer
      ensures transferred ==> producer.released == old(producer.released) && producer.cancels == old(producer.cancels)
      ensures !transferred ==> producer.released
                               && producer.cancels == old(producer.cancels) + if completed then 0 else 1
      ensures producer.held == old(producer.held)
    {
      if transferred {
        return;
      }
      if !completed {
        producer.Cancel();
      }
      producer.Release();
    }

    /** Concatenates every chunk; succeeds exactly when the stream ends by being done. */
    method ReadToEnd() returns (r: Result<Bytes, StreamError>)
      requires Valid() && !transferred
      modifies `completed, producer
      ensures Valid() && producer.held == old(producer.held) && producer.cancels == old(producer.cancels)
      ensures producer.script == AfterEnding(old(producer.script))
      ensures Ending(old(producer.script)) == Done ==> r == Ok(Payload(old(producer.script))) && completed
      ensures Ending(old(producer.script)) != Done ==>
                r == Err(ErrorOf(Ending(old(producer.script)))) && completed == old(completed)
      ensures r == Err(StreamCanceled) <==> Ending(old(producer.script)) == Canceled
      ensures r == Err(StreamFailed) <==> Ending(old(producer.script)) == Failed
      ensures r == Err(InvalidBytes) <==> Ending(old(producer.script)) == InvalidChunk
      ensures r == Err(NullRead) <==> Ending(old(producer.script)) == NullResult
      ensures r == Err(StatusUnknown) <==> Ending(old(producer.script)) == UnknownStatus
    {
      var output: Bytes := [];
      while true
        invariant Valid() && producer.held == old(producer.held) && producer.cancels == old(producer.cancels)
        invariant completed == old(completed)
        invariant output + Payload(producer.script) == Payload(old(producer.script))
        invariant Ending(producer.script) == Ending(old(producer.script))
        invariant AfterEnding(producer.script) == AfterEnding(old(producer.script))
        decreases |producer.script|
      {
        var read, id := producer.Next();
        if read == NullResult {
          return Err(NullRead);
        }
        if read.Chunk? {
          output := output + read.bytes;
        }
        producer.FreeRead(id);
        assert producer.held == old(producer.held);
        if read == Done {
          completed := true;
          assert output + [] == output;
          return Ok(output);
        }
        if !read.Chunk? {
          return Err(ErrorOf(read));
        }
      }
    }
  }

  /**
   * A producer that returns what an in-memory stream returns, read to its end, gives the bytes back; dropping it then
   * releases without canceling.
   */
  method MemoryRoundTrip(bytes: Bytes) returns (r: Result<Bytes, StreamError>, ghost p: Producer)
    ensures r == Ok(bytes)
    ensures fresh(p) && p.released && p.cancels == 0 && p.held == {}
  {
    var memory := new MemoryStream(bytes);
    var results := memory.Results();
    MemoryScriptIsTheBytes(bytes, 0);
    var producer := new Producer(results);
    var stream := new OwnedStream(producer);
    r := stream.ReadToEnd();
    stream.Drop();
    p := producer;
  }
}
