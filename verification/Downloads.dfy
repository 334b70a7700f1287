/** The registry of streaming S3 downloads: three collections under one lock, four counters beside it. */
module Downloads {
  import opened Common

  // ---------------------------------------------------------------------------------------------
  // What each locked section does
  // ---------------------------------------------------------------------------------------------

  /** Handles map to the client they belong to; `canceled` marks handles whose read is still in flight. */
  datatype Registry = Registry(available: map<int, int>, inFlight: map<int, int>, canceled: set<int>)

  function Insert(r: Registry, handle: int, client: int): Registry {
    r.(available := r.available[handle := client])
  }

  function BeginRead(r: Registry, handle: int): Registry {
    if handle !in r.available then r
    else r.(available := r.available - {handle}, inFlight := r.inFlight[handle := r.available[handle]])
  }

  function EndRead(r: Registry, handle: int): Registry {
    r.(inFlight := r.inFlight - {handle}, canceled := r.canceled - {handle})
  }

  function CancelOne(r: Registry, handle: int): Registry {
    if handle in r.available then r.(available := r.available - {handle})
    else if handle in r.inFlight then r.(canceled := r.canceled + {handle})
    else r
  }

  /** Whether a cancel is counted: the handle was live and not canceled before. */
  predicate CancelCounts(r: Registry, handle: int) {
    handle in r.available || (handle in r.inFlight && handle !in r.canceled)
  }

  function HandlesOf(handles: map<int, int>, client: int): set<int> {
    set handle | handle in handles && handles[handle] == client
  }

  function DisposeClient(r: Registry, client: int): Registry {
    r.(available := r.available - HandlesOf(r.available, client),
       canceled := r.canceled + HandlesOf(r.inFlight, client))
  }

  function DisposeCount(r: Registry, client: int): nat {
    |HandlesOf(r.available, client)| + |HandlesOf(r.inFlight, client) - r.canceled|
  }

  function Release(r: Registry, handle: int): Registry {
    r.(available := r.available - {handle})
  }

  // ---------------------------------------------------------------------------------------------
  // The interleaved system
  // ---------------------------------------------------------------------------------------------

  datatype ReadOutcome = ChunkRead | ReadFailed | StreamEnded

  /** Counter values, or additions to them that a thread still has to make. */
  datatype Counts = Counts(started: nat, completed: nat, canceled: nat, failed: nat)

  function Plus(a: Counts, b: Counts): Counts {
    Counts(a.started + b.started, a.completed + b.completed, a.canceled + b.canceled, a.failed + b.failed)
  }

  /**
   * `between` holds the handles whose read returned a chunk and that wait to be made available again. `completed`,
   * `canceled` and `failed` record how the other handles ended, and `delivered` the handle of each chunk returned.
   */
  datatype System = System(
    registry: Registry,
    nextHandle: nat,
    between: map<int, int>,
    counters: Counts,
    owed: Counts,
    completed: set<int>,
    canceled: set<int>,
    failed: set<int>,
    delivered: seq<int>)

  function Initial(): System {
    System(Registry(map[], map[], {}), 1, map[], Counts(0, 0, 0, 0), Counts(0, 0, 0, 0), {}, {}, {}, [])
  }

  datatype Action =
    | Start(client: int)
    | BeginNext(handle: int)
    | EndNext(handle: int, outcome: ReadOutcome)
    | PutBack(handle: int)
    | Cancel(handle: int)
    | Dispose(client: int)
    | ReleaseStream(handle: int)
    | Bump(amount: Counts)

  predicate Covers(owed: Counts, amount: Counts) {
    && amount.started <= owed.started && amount.completed <= owed.completed
    && amount.canceled <= owed.canceled && amount.failed <= owed.failed
  }

  /** One locked section, or one addition to the counters. An action that does not apply changes nothing. */
  function Step(s: System, a: Action): System {
    match a
    case Start(client) =>
      s.(registry := Insert(s.registry, s.nextHandle, client), nextHandle := s.nextHandle + 1,
         owed := s.owed.(started := s.owed.started + 1))
    case BeginNext(handle) => s.(registry := BeginRead(s.registry, handle))
    case EndNext(handle, outcome) =>
      if handle !in s.registry.inFlight then s else AfterEndNext(s, handle, outcome)
    case PutBack(handle) =>
      if handle !in s.between then s
      else s.(registry := Insert(s.registry, handle, s.between[handle]), between := s.between - {handle},
              delivered := s.delivered + [handle])
    case Cancel(handle) =>
      s.(registry := CancelOne(s.registry, handle),
         canceled := if handle in s.registry.available then s.canceled + {handle} else s.canceled,
         owed := if CancelCounts(s.registry, handle) then s.owed.(canceled := s.owed.canceled + 1) else s.owed)
    case Dispose(client) =>
      s.(registry := DisposeClient(s.registry, client),
         canceled := s.canceled + HandlesOf(s.registry.available, client),
         owed := s.owed.(canceled := s.owed.canceled + DisposeCount(s.registry, client)))
    case ReleaseStream(handle) =>
      if handle !in s.registry.available then s
      else s.(registry := Release(s.registry, handle), completed := s.completed + {handle},
              owed := s.owed.(completed := s.owed.completed + 1))
    case Bump(amount) =>
      if !Covers(s.owed, amount) then s
      else s.(counters := Plus(s.counters, amount),
              owed := Counts(s.owed.started - amount.started, s.owed.completed - amount.completed,
                             s.owed.canceled - amount.canceled, s.owed.failed - amount.failed))
  }

  /** The second locked section of a read: a cancel that came in meanwhile wins over what was read. */
  function AfterEndNext(s: System, handle: int, outcome: ReadOutcome): System
    requires handle in s.registry.inFlight
  {
    var s' := s.(registry := EndRead(s.registry, handle));
    if handle in s.registry.canceled then s'.(canceled := s.canceled + {handle})
    else
      match outcome
      case ChunkRead => s'.(between := s.between[handle := s.registry.inFlight[handle]])
      case ReadFailed => s'.(failed := s.failed + {handle}, owed := s.owed.(failed := s.owed.failed + 1))
      case StreamEnded => s'.(completed := s.completed + {handle}, owed := s.owed.(completed := s.owed.completed + 1))
  }

  function Run(s: System, actions: seq<Action>): System {
    if actions == [] then s else Step(Run(s, actions[..|actions| - 1]), actions[|actions| - 1])
  }

  // ---------------------------------------------------------------------------------------------
  // The invariant
  // ---------------------------------------------------------------------------------------------

  datatype Class = Available | InFlight | InFlightCanceled | Between | Completed | Canceled | Failed

  ghost predicate InClass(s: System, handle: int, c: Class) {
    match c
    case Available => handle in s.registry.available
    case InFlight => handle in s.registry.inFlight && handle !in s.registry.canceled
    case InFlightCanceled => handle in s.registry.inFlight && handle in s.registry.canceled
    case Between => handle in s.between
    case Completed => handle in s.completed
    case Canceled => handle in s.canceled
    case Failed => handle in s.failed
  }

  function Flag(b: bool): nat {
    if b then 1 else 0
  }

  /** In how many of the six places a handle is. */
  function Places(s: System, h: int): nat {
    Flag(h in s.registry.available) + Flag(h in s.registry.inFlight) + Flag(h in s.between)
    + Flag(h in s.completed) + Flag(h in s.canceled) + Flag(h in s.failed)
  }

  /** Every handle issued is in exactly one place, every other handle in none. */
  ghost predicate Partitioned(s: System) {
    && s.nextHandle > 0
    && s.registry.canceled <= s.registry.inFlight.Keys
    && forall h :: Places(s, h) == Flag(0 < h < s.nextHandle)
  }

  /** The sizes of the six places, and how many reads in flight are canceled. */
  datatype Sizes = Sizes(
    available: int, inFlight: int, marked: int, between: int, completed: int, canceled: int, failed: int)

  function SizesOf(s: System): Sizes {
    Sizes(|s.registry.available|, |s.registry.inFlight|, |s.registry.canceled|, |s.between|,
          |s.completed|, |s.canceled|, |s.failed|)
  }

  /** Counters plus what threads still owe them are the sizes of the classes. */
  ghost predicate Balanced(sizes: Sizes, total: Counts, issued: int) {
    && total.completed == sizes.completed
    && total.canceled == sizes.canceled + sizes.marked
    && total.failed == sizes.failed
    && total.started == issued
    && total.started == sizes.available + sizes.inFlight + sizes.between
                        + sizes.completed + sizes.canceled + sizes.failed
  }

  ghost predicate Counted(s: System) {
    Balanced(SizesOf(s), Plus(s.counters, s.owed), s.nextHandle - 1)
  }

  ghost predicate Inv(s: System) {
    Partitioned(s) && Counted(s)
  }

  lemma StepKeepsPartition(s: System, a: Action)
    requires Partitioned(s)
    ensures Partitioned(Step(s, a))
  {
    hide DisposeCount, Plus, Covers, CancelCounts;
    var s' := Step(s, a);
    forall h
      ensures Places(s', h) == Flag(0 < h < s'.nextHandle)
    {
      assert Places(s, h) == Flag(0 < h < s.nextHandle);
    }
  }

  lemma AddKey(m: map<int, int>, key: int, value: int)
    requires key !in m
    ensures |m[key := value]| == |m| + 1
  {
    assert m[key := value].Keys == m.Keys + {key};
  }

  lemma DropKeys(m: map<int, int>, keys: set<int>)
    requires keys <= m.Keys
    ensures |m - keys| == |m| - |keys|
  {
    assert (m - keys).Keys == m.Keys - keys;
  }

  lemma AddMember(members: set<int>, x: int)
    requires x !in members
    ensures |members + {x}| == |members| + 1
  {
  }

  lemma AbsentIsNotDropped(members: set<int>, x: int)
    requires x !in members
    ensures members - {x} == members
  {
  }

  lemma AvailableIsNowhereElse(s: System, handle: int)
    requires Partitioned(s) && handle in s.registry.available
    ensures handle !in s.registry.inFlight && handle !in s.registry.canceled && handle !in s.between
    ensures handle !in s.completed && handle !in s.canceled && handle !in s.failed
  {
    assert Places(s, handle) <= 1;
  }

  lemma InFlightIsNowhereElse(s: System, handle: int)
    requires Partitioned(s) && handle in s.registry.inFlight
    ensures handle !in s.registry.available && handle !in s.between
    ensures handle !in s.completed && handle !in s.canceled && handle !in s.failed
  {
    assert Places(s, handle) <= 1;
  }

  lemma StartSizes(s: System, client: int)
    requires Partitioned(s)
    ensures var z := SizesOf(s);
            SizesOf(Step(s, Start(client))) == z.(available := z.available + 1)
  {
    assert Places(s, s.nextHandle) == 0;
    hide Partitioned, Places;
    AddKey(s.registry.available, s.nextHandle, client);
  }

  lemma BeginNextSizes(s: System, handle: int)
    requires Partitioned(s) && handle in s.registry.available
    ensures var z := SizesOf(s);
            SizesOf(Step(s, BeginNext(handle)))
            == z.(available := z.available - 1, inFlight := z.inFlight + 1)
  {
    AvailableIsNowhereElse(s, handle);
    hide Partitioned;
    AddKey(s.registry.inFlight, handle, s.registry.available[handle]);
    DropKeys(s.registry.available, {handle});
  }

  lemma PutBackSizes(s: System, handle: int)
    requires Partitioned(s) && handle in s.between
    ensures var z := SizesOf(s);
            SizesOf(Step(s, PutBack(handle)))
            == z.(available := z.available + 1, between := z.between - 1)
  {
    assert Places(s, handle) <= 1;
    hide Partitioned;
    AddKey(s.registry.available, handle, s.between[handle]);
    DropKeys(s.between, {handle});
  }

  lemma CancelAvailableSizes(s: System, handle: int)
    requires Partitioned(s) && handle in s.registry.available
    ensures var z := SizesOf(s);
            SizesOf(Step(s, Cancel(handle)))
            == z.(available := z.available - 1, canceled := z.canceled + 1)
  {
    AvailableIsNowhereElse(s, handle);
    hide Partitioned;
    DropKeys(s.registry.available, {handle});
    assert |s.canceled + {handle}| == |s.canceled| + 1;
  }

  lemma CancelInFlightSizes(s: System, handle: int)
    requires Partitioned(s) && handle !in s.registry.available
    ensures var z := SizesOf(s);
            SizesOf(Step(s, Cancel(handle)))
            == z.(marked := z.marked + Flag(CancelCounts(s.registry, handle)))
  {
    hide Partitioned;
    if handle in s.registry.canceled {
      assert s.registry.canceled + {handle} == s.registry.canceled;
    }
  }

  lemma ReleaseSizes(s: System, handle: int)
    requires Partitioned(s) && handle in s.registry.available
    ensures var z := SizesOf(s);
            SizesOf(Step(s, ReleaseStream(handle)))
            == z.(available := z.available - 1, completed := z.completed + 1)
  {
    AvailableIsNowhereElse(s, handle);
    hide Partitioned;
    DropKeys(s.registry.available, {handle});
    assert |s.completed + {handle}| == |s.completed| + 1;
  }

  lemma DisposeSizes(s: System, client: int)
    requires Partitioned(s)
    ensures var z := SizesOf(s);
            var gone := HandlesOf(s.registry.available, client);
            SizesOf(Step(s, Dispose(client)))
            == z.(available := z.available - |gone|, canceled := z.canceled + |gone|,
                  marked := z.marked + DisposeCount(s.registry, client) - |gone|)
  {
    var r := s.registry;
    var gone, marked := HandlesOf(r.available, client), HandlesOf(r.inFlight, client);
    DropKeys(r.available, gone);
    forall h | h in gone
      ensures h !in s.canceled
    {
      AvailableIsNowhereElse(s, h);
    }
    hide Partitioned;
    assert |s.canceled + gone| == |s.canceled| + |gone|;
    assert r.canceled + marked == r.canceled + (marked - r.canceled);
  }

  lemma BumpSizes(s: System, amount: Counts)
    ensures SizesOf(Step(s, Bump(amount))) == SizesOf(s)
  {
  }

  lemma EndCanceledSizes(s: System, handle: int, outcome: ReadOutcome)
    requires Partitioned(s) && handle in s.registry.inFlight && handle in s.registry.canceled
    ensures var z := SizesOf(s);
            SizesOf(Step(s, EndNext(handle, outcome)))
            == z.(inFlight := z.inFlight - 1, marked := z.marked - 1,
                  canceled := z.canceled + 1)
  {
    InFlightIsNowhereElse(s, handle);
    hide Partitioned;
    DropKeys(s.registry.inFlight, {handle});
    assert |s.canceled + {handle}| == |s.canceled| + 1;
    assert |s.registry.canceled - {handle}| == |s.registry.canceled| - 1;
  }

  lemma ChunkReadSizes(s: System, handle: int)
    requires Partitioned(s) && handle in s.registry.inFlight && handle !in s.registry.canceled
    ensures var z := SizesOf(s);
            SizesOf(Step(s, EndNext(handle, ChunkRead))) == z.(inFlight := z.inFlight - 1, between := z.between + 1)
  {
    InFlightIsNowhereElse(s, handle);
    hide Partitioned;
    DropKeys(s.registry.inFlight, {handle});
    AbsentIsNotDropped(s.registry.canceled, handle);
    AddKey(s.between, handle, s.registry.inFlight[handle]);
  }

  lemma ReadFailedSizes(s: System, handle: int)
    requires Partitioned(s) && handle in s.registry.inFlight && handle !in s.registry.canceled
    ensures var z := SizesOf(s);
            SizesOf(Step(s, EndNext(handle, ReadFailed))) == z.(inFlight := z.inFlight - 1, failed := z.failed + 1)
  {
    InFlightIsNowhereElse(s, handle);
    hide Partitioned;
    DropKeys(s.registry.inFlight, {handle});
    AbsentIsNotDropped(s.registry.canceled, handle);
    AddMember(s.failed, handle);
  }

  lemma StreamEndedSizes(s: System, handle: int)
    requires Partitioned(s) && handle in s.registry.inFlight && handle !in s.registry.canceled
    ensures var z := SizesOf(s);
            SizesOf(Step(s, EndNext(handle, StreamEnded))) ==
            z.(inFlight := z.inFlight - 1, completed := z.completed + 1)
  {
    InFlightIsNowhereElse(s, handle);
    hide Partitioned;
    DropKeys(s.registry.inFlight, {handle});
    AbsentIsNotDropped(s.registry.canceled, handle);
    AddMember(s.completed, handle);
  }

  /** The sizes and the counters move together. */
  lemma StepKeepsCounts(s: System, a: Action)
    requires Inv(s)
    ensures Counted(Step(s, a))
  {
    hide Partitioned, SizesOf, DisposeCount;
    match a
    case Start(client) => StartSizes(s, client);
    case BeginNext(handle) =>
      if handle in s.registry.available {
        BeginNextSizes(s, handle);
      } else {
        assert Step(s, a) == s;
      }
    case EndNext(handle, outcome) =>
      if handle in s.registry.inFlight {
        if handle in s.registry.canceled {
          EndCanceledSizes(s, handle, outcome);
        } else {
          match outcome
          case ChunkRead => ChunkReadSizes(s, handle);
          case ReadFailed => ReadFailedSizes(s, handle);
          case StreamEnded => StreamEndedSizes(s, handle);
        }
      }
    case PutBack(handle) =>
      if handle in s.between {
        PutBackSizes(s, handle);
      } else {
        assert Step(s, a) == s;
      }
    case Cancel(handle) =>
      if handle in s.registry.available {
        CancelAvailableSizes(s, handle);
      } else {
        CancelInFlightSizes(s, handle);
      }
    case Dispose(client) => DisposeSizes(s, client);
    case ReleaseStream(handle) =>
      if handle in s.registry.available {
        ReleaseSizes(s, handle);
      } else {
        assert Step(s, a) == s;
      }
    case Bump(amount) => BumpSizes(s, amount);
  }

  /** After any run every issued handle is in exactly one class and every counter is exact up to what is still owed. */
  lemma {:induction false} RunKeepsInv(actions: seq<Action>)
    ensures Inv(Run(Initial(), actions))
  {
    hide Partitioned, Counted, Step;
    var s := Run(Initial(), actions);
    if actions == [] {
      InitialInv();
    } else {
      var front := actions[..|actions| - 1];
      RunKeepsInv(front);
      StepKeepsPartition(Run(Initial(), front), actions[|actions| - 1]);
      StepKeepsCounts(Run(Initial(), front), actions[|actions| - 1]);
    }
  }

  lemma InitialPlaces(h: int)
    ensures Places(Initial(), h) == 0
  {
  }

  lemma InitialTotals()
    ensures var total := Plus(Initial().counters, Initial().owed);
            total.started == total.completed == total.canceled == total.failed == 0
  {
  }

  lemma InitialSizes()
    ensures SizesOf(Initial()) == Sizes(0, 0, 0, 0, 0, 0, 0)
    ensures Initial().nextHandle == 1 && Initial().registry.canceled == {}
  {
  }

  lemma InitialInv()
    ensures Inv(Initial())
  {
    hide Initial, Plus, Places, SizesOf;
    InitialTotals();
    InitialSizes();
    forall h
      ensures Places(Initial(), h) == Flag(0 < h < Initial().nextHandle)
    {
      InitialPlaces(h);
    }
  }

  // ---------------------------------------------------------------------------------------------
  // What the invariant means
  // ---------------------------------------------------------------------------------------------

  /** Every issued handle is in exactly one class. */
  lemma ExactlyOneClass(s: System, handle: int)
    requires Inv(s) && 0 < handle < s.nextHandle
    ensures exists c :: InClass(s, handle, c) && forall other :: InClass(s, handle, other) ==> other == c
  {
    assert Places(s, handle) == 1;
    var c :=
      if handle in s.registry.available then Available
      else if handle in s.registry.inFlight then (if handle in s.registry.canceled then InFlightCanceled else InFlight)
      else if handle in s.between then Between
      else if handle in s.completed then Completed
      else if handle in s.canceled then Canceled
      else Failed;
    assert InClass(s, handle, c);
    forall other | InClass(s, handle, other)
      ensures other == c
    {
    }
  }

  /** Started downloads are the live ones nobody canceled plus those completed, canceled and failed. */
  lemma StartedAreAccountedFor(s: System)
    requires Inv(s)
    ensures var total := Plus(s.counters, s.owed);
            total.started == |s.registry.available| + |s.registry.inFlight.Keys - s.registry.canceled| + |s.between|
                             + total.completed + total.canceled + total.failed
  {
    var flying := s.registry.inFlight.Keys;
    assert flying == (flying - s.registry.canceled) + s.registry.canceled;
  }

  /** The handles the registry can still find. */
  ghost function LiveHandles(s: System): set<int> {
    set h | 0 < h < s.nextHandle &&
            (InClass(s, h, Available) || InClass(s, h, InFlight) || InClass(s, h, InFlightCanceled))
  }

  /**
   * The two collections together count each live handle once: what was started, less what ended and less the reads that
   * wait between their two locked sections.
   */
  lemma ActiveIsTheLiveHandles(s: System)
    requires Inv(s)
    ensures |s.registry.available| + |s.registry.inFlight| == |LiveHandles(s)|
    ensures |LiveHandles(s)| == s.nextHandle - 1 - |s.completed| - |s.canceled| - |s.failed| - |s.between|
  {
    forall h
      ensures h in LiveHandles(s) <==> h in s.registry.available || h in s.registry.inFlight
      ensures !(h in s.registry.available && h in s.registry.inFlight)
    {
      assert Places(s, h) == Flag(0 < h < s.nextHandle);
    }
    hide Partitioned, Places;
    assert LiveHandles(s) == s.registry.available.Keys + s.registry.inFlight.Keys;
    assert s.registry.available.Keys !! s.registry.inFlight.Keys;
  }

  /** A read may begin only on an available handle, so a handle never has two reads at once. */
  lemma NoSecondRead(s: System, handle: int)
    requires Inv(s) && (handle in s.registry.inFlight || handle in s.between)
    ensures Step(s, BeginNext(handle)) == s
  {
    assert Places(s, handle) <= 1;
  }

  // ---------------------------------------------------------------------------------------------
  // One download at a time
  // ---------------------------------------------------------------------------------------------

  /** What became of one download. */
  datatype Download =
    | NotStarted
    | Waiting(client: int)
    | Reading(client: int, marked: bool)
    | Returning(client: int)
    | Ended(how: End)

  datatype End = Finished | WasCanceled | Broke

  /** One download's life, on its own: `issued` is the handle the next start draws. */
  function Live(d: Download, handle: int, issued: int, a: Action): Download {
    match (d, a)
    case (NotStarted, Start(client)) => if handle == issued then Waiting(client) else d
    case (Waiting(client), BeginNext(other)) => if other == handle then Reading(client, false) else d
    case (Waiting(client), Cancel(other)) => if other == handle then Ended(WasCanceled) else d
    case (Waiting(client), Dispose(other)) => if other == client then Ended(WasCanceled) else d
    case (Waiting(client), ReleaseStream(other)) => if other == handle then Ended(Finished) else d
    case (Reading(client, marked), Cancel(other)) => if other == handle then Reading(client, true) else d
    case (Reading(client, marked), Dispose(other)) => if other == client then Reading(client, true) else d
    case (Reading(client, marked), EndNext(other, outcome)) =>
      if other != handle then d
      else if marked then Ended(WasCanceled)
      else if outcome == ChunkRead then Returning(client)
      else Ended(if outcome == ReadFailed then Broke else Finished)
    case (Returning(client), PutBack(other)) => if other == handle then Waiting(client) else d
    case _ => d
  }

  /** The same, after the actions of a run from its first one. */
  function LifeOf(actions: seq<Action>, handle: int): Download {
    if actions == [] then NotStarted
    else
      var front := actions[..|actions| - 1];
      Live(LifeOf(front, handle), handle, 1 + Starts(front), actions[|actions| - 1])
  }

  function Starts(actions: seq<Action>): nat {
    if actions == [] then 0
    else Starts(actions[..|actions| - 1]) + Flag(actions[|actions| - 1].Start?)
  }

  /** What the collections say about a handle. */
  function DownloadOf(s: System, handle: int): Download {
    var r := s.registry;
    if handle in r.available then Waiting(r.available[handle])
    else if handle in r.inFlight then Reading(r.inFlight[handle], handle in r.canceled)
    else if handle in s.between then Returning(s.between[handle])
    else if handle in s.completed then Ended(Finished)
    else if handle in s.canceled then Ended(WasCanceled)
    else if handle in s.failed then Ended(Broke)
    else NotStarted
  }

  /** A handle is in one place; then the collections, asked in any order, say the same. */
  predicate InOnePlace(s: System, handle: int) {
    && Places(s, handle) == Flag(0 < handle < s.nextHandle)
    && (handle in s.registry.canceled ==> handle in s.registry.inFlight)
  }

  lemma CallStepIsEachDownloadsOwn(s: System, a: Action, handle: int)
    requires InOnePlace(s, handle) && !a.EndNext? && !a.PutBack? && !a.Bump?
    ensures DownloadOf(Step(s, a), handle) == Live(DownloadOf(s, handle), handle, s.nextHandle, a)
  {
    hide DisposeCount, CancelCounts;
    match a
    case Start(_) =>
    case BeginNext(_) =>
    case Cancel(_) =>
    case Dispose(_) =>
    case ReleaseStream(_) =>
  }

  lemma ReadStepIsEachDownloadsOwn(s: System, a: Action, handle: int)
    requires InOnePlace(s, handle) && (a.EndNext? || a.PutBack? || a.Bump?)
    ensures DownloadOf(Step(s, a), handle) == Live(DownloadOf(s, handle), handle, s.nextHandle, a)
  {
    hide Covers, Plus;
  }

  lemma StepIsEachDownloadsOwn(s: System, a: Action, handle: int)
    requires Inv(s)
    ensures DownloadOf(Step(s, a), handle) == Live(DownloadOf(s, handle), handle, s.nextHandle, a)
    ensures Step(s, a).nextHandle == s.nextHandle + Flag(a.Start?)
  {
    assert InOnePlace(s, handle);
    if a.EndNext? || a.PutBack? || a.Bump? {
      ReadStepIsEachDownloadsOwn(s, a, handle);
    } else {
      CallStepIsEachDownloadsOwn(s, a, handle);
    }
    hide Inv, DownloadOf, Live, DisposeCount, CancelCounts, Covers, Plus, HandlesOf;
  }

  lemma RunUnfolds(s: System, actions: seq<Action>)
    requires actions != []
    ensures Run(s, actions) == Step(Run(s, actions[..|actions| - 1]), actions[|actions| - 1])
  {
    hide Step;
  }

  lemma LifeUnfolds(actions: seq<Action>, handle: int)
    requires actions != []
    ensures var front, last := actions[..|actions| - 1], actions[|actions| - 1];
            && LifeOf(actions, handle) == Live(LifeOf(front, handle), handle, 1 + Starts(front), last)
            && Starts(actions) == Starts(front) + Flag(last.Start?)
  {
    hide Live, Flag;
  }

  lemma NothingStarted(actions: seq<Action>, handle: int)
    requires actions == []
    ensures DownloadOf(Run(Initial(), actions), handle) == LifeOf(actions, handle)
    ensures Run(Initial(), actions).nextHandle == 1 + Starts(actions)
  {
  }

  /**
   * The three collections under one lock do for each handle what that download's own life says, with the client it was
   * started for, whatever happens to the others.
   */
  lemma {:induction false} RunIsEachDownloadsLife(actions: seq<Action>, handle: int)
    ensures DownloadOf(Run(Initial(), actions), handle) == LifeOf(actions, handle)
    ensures Run(Initial(), actions).nextHandle == 1 + Starts(actions)
  {
    hide *;
    if actions == [] {
      NothingStarted(actions, handle);
    } else {
      var front := actions[..|actions| - 1];
      RunIsEachDownloadsLife(front, handle);
      RunKeepsInv(front);
      RunUnfolds(Initial(), actions);
      LifeUnfolds(actions, handle);
      StepIsEachDownloadsOwn(Run(Initial(), front), actions[|actions| - 1], handle);
    }
  }

  lemma MoveThereAndBack(m: map<int, int>, handle: int, client: int)
    ensures handle in m && m[handle] == client ==> (m - {handle})[handle := client] == m
    ensures handle !in m ==> m[handle := client] - {handle} == m
  {
  }

  /** An uninterrupted read of a waiting download delivers one chunk and leaves everything else as it was. */
  lemma ReadDeliversOneChunk(s: System, handle: int)
    requires Inv(s) && handle in s.registry.available
    ensures Step(Step(Step(s, BeginNext(handle)), EndNext(handle, ChunkRead)), PutBack(handle)) ==
            s.(delivered := s.delivered + [handle])
  {
    AvailableIsNowhereElse(s, handle);
    hide Inv;
    var r, client := s.registry, s.registry.available[handle];
    MoveThereAndBack(r.available, handle, client);
    MoveThereAndBack(r.inFlight, handle, client);
    MoveThereAndBack(s.between, handle, client);
    AbsentIsNotDropped(r.canceled, handle);
    var r1 := Registry(r.available - {handle}, r.inFlight[handle := client], r.canceled);
    assert Step(s, BeginNext(handle)) == s.(registry := r1);
    var s2 := s.(registry := r.(available := r.available - {handle}), between := s.between[handle := client]);
    assert Step(s.(registry := r1), EndNext(handle, ChunkRead)) == s2;
    hide Step;
    PutBackEndsTheRead(s, s2, handle);
  }

  lemma PutBackEndsTheRead(s: System, s2: System, handle: int)
    requires handle in s.registry.available && handle !in s.between
    requires var client := s.registry.available[handle];
             s2 == s.(registry := s.registry.(available := s.registry.available - {handle}),
                      between := s.between[handle := client])
    ensures Step(s2, PutBack(handle)) == s.(delivered := s.delivered + [handle])
  {
    MoveThereAndBack(s.registry.available, handle, s.registry.available[handle]);
    MoveThereAndBack(s.between, handle, s.registry.available[handle]);
  }

  /** The threads can always pay what they owe, and the counters are then the sizes of the classes. */
  lemma SettledCountersAreExact(s: System)
    requires Inv(s)
    ensures var s' := Step(s, Bump(s.owed));
            && s' == s.(counters := s'.counters, owed := Counts(0, 0, 0, 0))
            && s'.counters == Counts(s.nextHandle - 1, |s.completed|, |s.canceled| + |s.registry.canceled|, |s.failed|)
  {
  }

  // ---------------------------------------------------------------------------------------------
  // When a cancel takes effect
  // ---------------------------------------------------------------------------------------------

  /** Nothing more will be delivered: the handle has ended, or its read in flight is canceled. */
  predicate Stopped(s: System, handle: int) {
    handle in s.registry.canceled || handle in s.completed || handle in s.canceled || handle in s.failed
  }

  lemma StoppedIsNotLive(s: System, handle: int)
    requires Inv(s) && Stopped(s, handle)
    ensures handle < s.nextHandle && handle !in s.registry.available && handle !in s.between
    ensures handle in s.registry.inFlight <==> handle in s.registry.canceled
  {
    assert Places(s, handle) <= 1;
  }

  lemma DeliveredOther(delivered: seq<int>, other: int, handle: int)
    requires other != handle
    ensures multiset(delivered + [other])[handle] == multiset(delivered)[handle]
  {
    assert multiset(delivered + [other]) == multiset(delivered) + multiset{other};
  }

  lemma StepStaysStopped(s: System, a: Action, handle: int)
    requires Inv(s) && Stopped(s, handle)
    ensures Stopped(Step(s, a), handle)
    ensures multiset(Step(s, a).delivered)[handle] == multiset(s.delivered)[handle]
  {
    StoppedIsNotLive(s, handle);
    hide Inv, HandlesOf, DisposeCount, Plus, Covers, CancelCounts;
    match a
    case PutBack(other) =>
      if other in s.between {
        DeliveredOther(s.delivered, other, handle);
      }
    case EndNext(other, outcome) => EndNextStaysStopped(s, other, outcome, handle);
    case _ =>
  }

  lemma EndNextStaysStopped(s: System, other: int, outcome: ReadOutcome, handle: int)
    requires Stopped(s, handle)
    ensures var s' := Step(s, EndNext(other, outcome)); Stopped(s', handle) && s'.delivered == s.delivered
  {
  }

  /** A stopped download stays stopped and delivers no further chunk, whatever happens next. */
  lemma {:induction false} StoppedForever(s: System, actions: seq<Action>, handle: int)
    requires Inv(s) && Stopped(s, handle)
    ensures Inv(Run(s, actions)) && Stopped(Run(s, actions), handle)
    ensures multiset(Run(s, actions).delivered)[handle] == multiset(s.delivered)[handle]
  {
    hide Inv, Stopped, Step;
    if actions != [] {
      var front, last := actions[..|actions| - 1], actions[|actions| - 1];
      StoppedForever(s, front, handle);
      StepStaysStopped(Run(s, front), last, handle);
      StepKeepsInv(Run(s, front), last);
    }
  }

  lemma StepKeepsInv(s: System, a: Action)
    requires Inv(s)
    ensures Inv(Step(s, a))
  {
    hide Step, Partitioned, Counted;
    StepKeepsPartition(s, a);
    StepKeepsCounts(s, a);
  }

  /** A cancel stops the download exactly when it does not fall between the two locked sections of a read. */
  lemma CancelStopsIffNotBetween(s: System, handle: int)
    requires Inv(s) && 0 < handle < s.nextHandle
    ensures Stopped(Step(s, Cancel(handle)), handle) <==> handle !in s.between
  {
    assert Places(s, handle) == 1;
  }

  /** The client a download was started for. */
  function ClientOf(actions: seq<Action>, handle: int): Option<int> {
    if actions == [] then None
    else
      var front, last := actions[..|actions| - 1], actions[|actions| - 1];
      if last.Start? && handle == 1 + Starts(front) then Some(last.client) else ClientOf(front, handle)
  }

  function OwnerOf(d: Download): Option<int> {
    if d.Waiting? || d.Reading? || d.Returning? then Some(d.client) else None
  }

  /** A download stays the client's it was started for until it ends; the handles issued are those started. */
  lemma {:induction false} ClientNeverChanges(actions: seq<Action>, handle: int)
    ensures var d := LifeOf(actions, handle);
            && (d.NotStarted? <==> ClientOf(actions, handle).None?)
            && (d.NotStarted? || d.Ended? || OwnerOf(d) == ClientOf(actions, handle))
            && (ClientOf(actions, handle).Some? <==> 0 < handle <= Starts(actions))
  {
    if actions != [] {
      ClientNeverChanges(actions[..|actions| - 1], handle);
    }
  }

  /**
   * Over every run: disposing of a client stops exactly those downloads that were started for it, except the ones
   * between the two locked sections of a read, which go on; it stops no other client's.
   */
  lemma DisposeStopsIffNotBetween(actions: seq<Action>, client: int, handle: int)
    requires 0 < handle <= Starts(actions)
    ensures var s := Run(Initial(), actions);
            var s' := Step(s, Dispose(client));
            && (Stopped(s', handle) <==>
                  Stopped(s, handle) || (ClientOf(actions, handle) == Some(client) && handle !in s.between))
            && s'.between == s.between
  {
    var s := Run(Initial(), actions);
    RunKeepsInv(actions);
    RunIsEachDownloadsLife(actions, handle);
    ClientNeverChanges(actions, handle);
    StepIsEachDownloadsOwn(s, Dispose(client), handle);
    StepKeepsInv(s, Dispose(client));
    StoppedInTermsOfLife(s, handle);
    StoppedInTermsOfLife(Step(s, Dispose(client)), handle);
    hide Inv, Run, LifeOf, ClientOf, DownloadOf, Stopped, DisposeCount;
  }

  lemma StoppedInTermsOfLife(s: System, handle: int)
    requires Inv(s)
    ensures var d := DownloadOf(s, handle);
            && (Stopped(s, handle) <==> d.Ended? || (d.Reading? && d.marked))
            && (handle in s.between <==> d.Returning?)
  {
    assert Places(s, handle) <= 1;
  }

  /** A waiting handle becomes available again, and can be read again. */
  lemma BetweenGoesOn(s: System, handle: int)
    requires Inv(s) && handle in s.between
    ensures Step(s, Cancel(handle)) == s
    ensures var s3 := Step(Step(Step(s, PutBack(handle)), BeginNext(handle)), EndNext(handle, ChunkRead));
            handle in s3.between && s3.delivered == s.delivered + [handle]
  {
    assert Places(s, handle) == 1;
    var s1 := Step(s, PutBack(handle));
    assert handle in s1.registry.available && handle !in s1.registry.canceled;
    assert handle in BeginRead(s1.registry, handle).inFlight;
  }

  /** A cancel in that window is lost, and its download goes on delivering chunks. */
  lemma CancelBetweenIsLost(s: System, handle: int)
    requires Inv(s) && handle in s.between
    ensures var later := Run(s, [Cancel(handle), PutBack(handle), BeginNext(handle), EndNext(handle, ChunkRead)]);
            var s' := Step(later, PutBack(handle));
            s'.delivered == s.delivered + [handle] + [handle] && handle in s'.registry.available
  {
    BetweenGoesOn(s, handle);
    hide Inv;
    RunSnoc(s, [], Cancel(handle));
    RunSnoc(s, [Cancel(handle)], PutBack(handle));
    RunSnoc(s, [Cancel(handle), PutBack(handle)], BeginNext(handle));
    RunSnoc(s, [Cancel(handle), PutBack(handle), BeginNext(handle)], EndNext(handle, ChunkRead));
    assert [] + [Cancel(handle)] == [Cancel(handle)];
    assert [Cancel(handle)] + [PutBack(handle)] == [Cancel(handle), PutBack(handle)];
    assert [Cancel(handle), PutBack(handle)] + [BeginNext(handle)]
        == [Cancel(handle), PutBack(handle), BeginNext(handle)];
    assert [Cancel(handle), PutBack(handle), BeginNext(handle)] + [EndNext(handle, ChunkRead)]
        == [Cancel(handle), PutBack(handle), BeginNext(handle), EndNext(handle, ChunkRead)];
  }

  lemma RunSnoc(s: System, actions: seq<Action>, a: Action)
    ensures Run(s, actions + [a]) == Step(Run(s, actions), a)
  {
    assert (actions + [a])[..|actions|] == actions;
  }

  // ---------------------------------------------------------------------------------------------
  // The registry
  // ---------------------------------------------------------------------------------------------

  datatype ReadReply = UnknownHandle | ChunkReply | DoneReply | FailedReply

  /** Marking one more handle counts it unless it was marked before. */
  lemma MarkOne(handles: set<int>, rest: set<int>, before: set<int>, h: int)
    requires h in rest && rest <= handles
    ensures (handles - (rest - {h})) - before == ((handles - rest) - before) + if h in before then {} else {h}
    ensures |(handles - (rest - {h})) - before| == |(handles - rest) - before| + if h in before then 0 else 1
    ensures before + (handles - (rest - {h})) == before + (handles - rest) + {h}
  {
    var marked := (handles - rest) - before;
    assert (handles - (rest - {h})) - before == marked + if h in before then {} else {h};
  }

  class DownloadRegistry {
    var available: map<int, int>
    var inFlight: map<int, int>
    var canceledInFlight: set<int>
    var nextHandle: nat
    var started: nat
    var completed: nat
    var canceled: nat
    var failed: nat

    function Collections(): Registry
      reads this
    {
      Registry(available, inFlight, canceledInFlight)
    }

    function Counters(): Counts
      reads this
    {
      Counts(started, completed, canceled, failed)
    }

    constructor ()
      ensures Collections() == Initial().registry && Counters() == Initial().counters
      ensures nextHandle == Initial().nextHandle
    {
      available, inFlight, canceledInFlight := map[], map[], {};
      nextHandle, started, completed, canceled, failed := 1, 0, 0, 0, 0;
    }

    method StartDownload(client: int) returns (handle: nat)
      modifies this
      ensures handle == old(nextHandle) && nextHandle == handle + 1
      ensures available == old(available)[handle := client]
      ensures Collections() == Insert(old(Collections()), handle, client)
      ensures Counters() == old(Counters()).(started := old(started) + 1)
    {
      handle := nextHandle;
      nextHandle := nextHandle + 1;
      available := available[handle := client];
      started := started + 1;
    }

    /** The first locked section of a read: the handle moves from available to in flight. */
    method TakeForRead(handle: int) returns (client: Option<int>)
      modifies `available, `inFlight
      ensures Collections() == BeginRead(old(Collections()), handle)
      ensures client == if handle in old(available) then Some(old(available)[handle]) else None
    {
      if handle !in available {
        return None;
      }
      client := Some(available[handle]);
      available := available - {handle};
      inFlight := inFlight[handle := client.value];
    }

    /** The second locked section: the handle leaves both in-flight collections. */
    method FinishRead(handle: int) returns (wasCanceled: bool)
      modifies `inFlight, `canceledInFlight
      ensures Collections() == EndRead(old(Collections()), handle)
      ensures wasCanceled <==> handle in old(canceledInFlight)
    {
      inFlight := inFlight - {handle};
      wasCanceled := handle in canceledInFlight;
      canceledInFlight := canceledInFlight - {handle};
    }

    /** A whole read that nothing interrupts: it is the three steps of the system in a row. */
    method NextChunk(handle: int, outcome: ReadOutcome) returns (reply: ReadReply)
      modifies this
      ensures var r := old(Collections());
              && (reply == UnknownHandle <==> handle !in r.available)
              && (reply == UnknownHandle ==> Collections() == r && Counters() == old(Counters()))
              && (handle in r.available && handle !in r.canceled && handle !in r.inFlight ==>
                    match outcome
                    case ChunkRead => reply == ChunkReply && Collections() == r && Counters() == old(Counters())
                    case ReadFailed => reply == FailedReply && Collections() == Release(r, handle)
                                       && Counters() == old(Counters()).(failed := old(failed) + 1)
                    case StreamEnded => reply == DoneReply && Collections() == Release(r, handle)
                                        && Counters() == old(Counters()).(completed := old(completed) + 1))
    {
      var client := TakeForRead(handle);
      if client.None? {
        return UnknownHandle;
      }
      var wasCanceled := FinishRead(handle);
      if wasCanceled {
        return DoneReply;
      }
      assert inFlight == old(inFlight) - {handle} && canceledInFlight == old(canceledInFlight) - {handle};
      match outcome {
        case ChunkRead =>
          available := available[handle := client.value];
          assert available == old(available);
          return ChunkReply;
        case ReadFailed =>
          failed := failed + 1;
          return FailedReply;
        case StreamEnded =>
          completed := completed + 1;
          return DoneReply;
      }
    }

    method CancelDownload(handle: int)
      modifies this
      ensures Collections() == CancelOne(old(Collections()), handle)
      ensures Counters() == old(Counters()).(
                canceled := old(canceled) + Flag(CancelCounts(old(Collections()), handle)))
    {
      var counts := false;
      if handle in available {
        available := available - {handle};
        counts := true;
      } else if handle in inFlight {
        counts := handle !in canceledInFlight;
        canceledInFlight := canceledInFlight + {handle};
      }
      if counts {
        canceled := canceled + 1;
      }
    }

    /** Drops the given handles from the available ones. */
    method DropAvailable(handles: set<int>)
      modifies `available
      ensures available == old(available) - handles
    {
      var rest := handles;
      while |rest| > 0
        invariant rest <= handles && available == old(available) - (handles - rest)
        decreases |rest|
      {
        HasMember(rest);
        var h :| h in rest;
        available := available - {h};
        rest := rest - {h};
      }
      assert handles - rest == handles;
    }

    /** Marks the given handles as canceled in flight and counts those that were not. */
    method MarkCanceled(handles: set<int>) returns (count: nat)
      modifies `canceledInFlight
      ensures canceledInFlight == old(canceledInFlight) + handles
      ensures count == |handles - old(canceledInFlight)|
    {
      count := 0;
      ghost var before := canceledInFlight;
      var rest := handles;
      while |rest| > 0
        invariant rest <= handles && canceledInFlight == before + (handles - rest)
        invariant count == |(handles - rest) - before|
        decreases |rest|
      {
        HasMember(rest);
        var h :| h in rest;
        MarkOne(handles, rest, before, h);
        if h !in canceledInFlight {
          count := count + 1;
        }
        canceledInFlight := canceledInFlight + {h};
        rest := rest - {h};
      }
      assert handles - rest == handles;
    }

    /** Drops every available download of a client and marks those whose read is in flight. */
    method DisposeOf(client: int)
      modifies this
      ensures Collections() == DisposeClient(old(Collections()), client)
      ensures Counters() == old(Counters()).(canceled := old(canceled) + DisposeCount(old(Collections()), client))
    {
      var handles := HandlesOf(available, client);
      DropAvailable(handles);
      var newlyCanceled := MarkCanceled(HandlesOf(inFlight, client));
      canceled := canceled + |handles| + newlyCanceled;
    }

    /** Releasing an available download counts it as completed; any other release does nothing. */
    method ReleaseDownload(handle: int)
      modifies this
      ensures Collections() == Release(old(Collections()), handle)
      ensures Counters() == old(Counters()).(completed := old(completed) + Flag(handle in old(available)))
    {
      if handle in available {
        available := available - {handle};
        completed := completed + 1;
      }
    }

    method ActiveCount() returns (count: nat)
      ensures count == |available| + |inFlight|
    {
      return |available| + |inFlight|;
    }
  }
}
