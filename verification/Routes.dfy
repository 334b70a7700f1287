/** Matching a request path against the compiled route table, and rebuilding a path from the bound parameters. */
module Routes {
  import opened Common
  import opened Text

  const SLASH: byte := 47

  datatype Segment = Literal(text: Bytes) | Parameter(name: Bytes) | Wildcard(name: Bytes)

  datatype RouteKind = Http | NativeHttp | WebSocket | WebTransport

  datatype Route = Route(kind: RouteKind, verb: Bytes, pattern: seq<Segment>)

  type Params = map<Bytes, Bytes>

  datatype RouteMatch = RouteMatch(index: nat, params: Params)

  // ---------------------------------------------------------------------------------------------
  // Path segments
  // ---------------------------------------------------------------------------------------------

  function NonEmpty(pieces: seq<Bytes>): seq<Bytes> {
    if pieces == [] then [] else (if pieces[0] == [] then [] else [pieces[0]]) + NonEmpty(pieces[1..])
  }

  function PathSegments(path: Bytes): seq<Bytes> {
    if path == [SLASH] then [] else NonEmpty(Split(path, SLASH))
  }

  /** The segments joined with slashes between them. */
  function Join(segments: seq<Bytes>): Bytes {
    if segments == [] then []
    else if |segments| == 1 then segments[0]
    else segments[0] + [SLASH] + Join(segments[1..])
  }

  predicate IsSegment(s: Bytes) {
    s != [] && SLASH !in s
  }

  lemma NonEmptyUnfolds(pieces: seq<Bytes>)
    requires pieces != []
    ensures NonEmpty(pieces) == (if pieces[0] == [] then [] else [pieces[0]]) + NonEmpty(pieces[1..])
  {
  }

  lemma {:induction false} NonEmptyConcat(a: seq<Bytes>, b: seq<Bytes>)
    ensures NonEmpty(a + b) == NonEmpty(a) + NonEmpty(b)
  {
    if a == [] {
      assert a + b == b;
    } else {
      NonEmptyUnfolds(a);
      NonEmptyUnfolds(a + b);
      hide NonEmpty;
      NonEmptyConcat(a[1..], b);
      assert (a + b)[0] == a[0] && (a + b)[1..] == a[1..] + b;
    }
  }

  /** A path without the special case: the lone slash has no segments either way. */
  lemma SegmentsOfPath(path: Bytes)
    ensures PathSegments(path) == NonEmpty(Split(path, SLASH))
  {
    if path == [SLASH] {
      assert path[1..] == [];
      EmptyPieces();
      var pieces := Split(path, SLASH);
      assert pieces == [[]] + Split([], SLASH);
      assert pieces[1..] == Split([], SLASH);
    }
  }

  lemma EmptyPieces()
    ensures Split([], SLASH) == [[]] && NonEmpty(Split([], SLASH)) == []
  {
    var pieces := Split([], SLASH);
    assert |pieces[1..]| == 0;
  }

  /** A slash separates the segments before it from those after it. */
  lemma SegmentsConcat(a: Bytes, b: Bytes)
    ensures PathSegments(a + [SLASH] + b) == PathSegments(a) + PathSegments(b)
  {
    SplitConcat(a, SLASH, b);
    NonEmptyConcat(Split(a, SLASH), Split(b, SLASH));
    SegmentsOfPath(a);
    SegmentsOfPath(b);
    SegmentsOfPath(a + [SLASH] + b);
  }

  lemma SegmentsOfSegment(s: Bytes)
    ensures IsSegment(s) ==> PathSegments(s) == [s]
    ensures PathSegments([]) == []
  {
    if IsSegment(s) {
      SplitWhole(s, SLASH);
      SegmentsOfPath(s);
      assert [s][1..] == [];
    }
    EmptyPieces();
  }

  /** What a path is split into can be joined and split again. */
  lemma {:induction false} SegmentsOfJoin(segments: seq<Bytes>)
    requires forall i :: 0 <= i < |segments| ==> IsSegment(segments[i])
    ensures PathSegments(Join(segments)) == segments
  {
    SegmentsOfSegment(if segments == [] then [] else segments[0]);
    if |segments| > 1 {
      SegmentsOfJoin(segments[1..]);
      SegmentsConcat(segments[0], Join(segments[1..]));
    }
  }

  lemma {:induction false} SplitPieces(s: Bytes)
    ensures forall i :: 0 <= i < |Split(s, SLASH)| ==> SLASH !in Split(s, SLASH)[i]
  {
    if s != [] {
      SplitPieces(s[1..]);
    }
  }

  lemma {:induction false} NonEmptyPieces(pieces: seq<Bytes>)
    requires forall i :: 0 <= i < |pieces| ==> SLASH !in pieces[i]
    ensures forall i :: 0 <= i < |NonEmpty(pieces)| ==> IsSegment(NonEmpty(pieces)[i])
  {
    if pieces != [] {
      NonEmptyPieces(pieces[1..]);
    }
  }

  lemma PathSegmentsAreSegments(path: Bytes)
    ensures forall i :: 0 <= i < |PathSegments(path)| ==> IsSegment(PathSegments(path)[i])
  {
    SplitPieces(path);
    NonEmptyPieces(Split(path, SLASH));
  }

  // ---------------------------------------------------------------------------------------------
  // What matching means
  // ---------------------------------------------------------------------------------------------

  predicate KindMatches(kind: RouteKind, requested: RouteKind) {
    match requested
    case Http => kind == Http || kind == NativeHttp
    case NativeHttp => false
    case WebSocket => kind == WebSocket
    case WebTransport => kind == WebTransport
  }

  predicate CountMatches(pattern: seq<Segment>, count: nat) {
    if pattern != [] && pattern[|pattern| - 1].Wildcard? then count >= |pattern| - 1 else count == |pattern|
  }

  /** No wildcard stands before position `i`: the matcher gets there. */
  ghost predicate Reached(pattern: seq<Segment>, i: int) {
    0 <= i < |pattern| && forall k :: 0 <= k < i ==> !pattern[k].Wildcard?
  }

  /** The request has the right number of segments, and each literal that is reached stands in its place. */
  ghost predicate Fits(pattern: seq<Segment>, request: seq<Bytes>) {
    && CountMatches(pattern, |request|)
    && forall i :: Reached(pattern, i) && pattern[i].Literal? ==> i < |request| && request[i] == pattern[i].text
  }

  /** Position `i` binds this name. */
  ghost predicate Binds(pattern: seq<Segment>, i: int, name: Bytes) {
    Reached(pattern, i) && !pattern[i].Literal? && pattern[i].name == name
  }

  /** What position `i` binds its name to: its segment, or everything from there on. */
  function BoundValue(pattern: seq<Segment>, request: seq<Bytes>, i: nat): Bytes
    requires i < |pattern|
  {
    if pattern[i].Wildcard? && i <= |request| then Join(request[i..])
    else if i < |request| then request[i]
    else []
  }

  /** Every position that is reached exists in the request, so that no slice is out of range. */
  lemma ReachedIsInRange(pattern: seq<Segment>, count: nat, i: int)
    requires CountMatches(pattern, count) && Reached(pattern, i)
    ensures i <= count && (!pattern[i].Wildcard? ==> i < count)
  {
  }

  /** The last position before `n` that binds this name. */
  ghost function LastBinder(pattern: seq<Segment>, n: nat, name: Bytes): (i: Option<nat>)
    requires n <= |pattern|
    ensures i.Some? ==> i.value < n && Binds(pattern, i.value, name)
                        && forall j :: i.value < j < n ==> !Binds(pattern, j, name)
    ensures i.None? ==> forall j :: j < n ==> !Binds(pattern, j, name)
  {
    if n == 0 then None
    else if Binds(pattern, n - 1, name) then Some(n - 1)
    else LastBinder(pattern, n - 1, name)
  }

  /** The parameters are the names bound before `n`, each to the value of the last position that binds it. */
  ghost predicate BoundBefore(pattern: seq<Segment>, request: seq<Bytes>, n: nat, params: Params)
    requires CountMatches(pattern, |request|) && n <= |pattern|
  {
    forall name ::
      match LastBinder(pattern, n, name)
      case None => name !in params
      case Some(i) =>
        ReachedIsInRange(pattern, |request|, i);
        name in params && params[name] == BoundValue(pattern, request, i)
  }

  ghost predicate Bound(pattern: seq<Segment>, request: seq<Bytes>, params: Params)
    requires CountMatches(pattern, |request|)
  {
    BoundBefore(pattern, request, |pattern|, params)
  }

  ghost predicate Applies(route: Route, verb: Bytes, request: seq<Bytes>, requested: RouteKind) {
    KindMatches(route.kind, requested) && route.verb == verb && Fits(route.pattern, request)
  }

  // --- the same, read segment by segment ---

  predicate WildcardOnlyLast(pattern: seq<Segment>) {
    forall i :: 0 <= i < |pattern| - 1 ==> !pattern[i].Wildcard?
  }

  /** Literals stand for themselves, a parameter for any segment, and a wildcard for whatever is left. */
  predicate MatchesSegments(pattern: seq<Segment>, request: seq<Bytes>) {
    if pattern == [] then request == []
    else if pattern[0].Wildcard? then true
    else
      && request != []
      && (pattern[0].Literal? ==> request[0] == pattern[0].text)
      && MatchesSegments(pattern[1..], request[1..])
  }

  lemma {:induction false} FitsIffSegmentsMatch(pattern: seq<Segment>, request: seq<Bytes>)
    requires WildcardOnlyLast(pattern)
    ensures Fits(pattern, request) <==> MatchesSegments(pattern, request)
  {
    if pattern == [] {
    } else if pattern[0].Wildcard? {
      assert |pattern| == 1;
    } else if request != [] {
      FitsIffSegmentsMatch(pattern[1..], request[1..]);
      FitsUnfolds(pattern, request);
    }
  }

  lemma FitsUnfolds(pattern: seq<Segment>, request: seq<Bytes>)
    requires pattern != [] && request != [] && !pattern[0].Wildcard? && WildcardOnlyLast(pattern)
    ensures Fits(pattern, request) <==>
            (pattern[0].Literal? ==> request[0] == pattern[0].text) && Fits(pattern[1..], request[1..])
  {
    var rest, left := pattern[1..], request[1..];
    assert forall i :: 0 <= i < |rest| ==> rest[i] == pattern[i + 1];
    assert Reached(pattern, 0);
    forall i
      ensures Reached(rest, i) <==> i >= 0 && Reached(pattern, i + 1)
    {
      ReachedBehind(pattern, i);
    }
    assert CountMatches(pattern, |request|) <==> CountMatches(rest, |left|);
    if Fits(pattern, request) {
      forall i | Reached(rest, i) && rest[i].Literal?
        ensures i < |left| && left[i] == rest[i].text
      {
        assert Reached(pattern, i + 1);
      }
    }
    if Fits(rest, left) && (pattern[0].Literal? ==> request[0] == pattern[0].text) {
      forall i | Reached(pattern, i) && pattern[i].Literal?
        ensures i < |request| && request[i] == pattern[i].text
      {
        assert i > 0 ==> Reached(rest, i - 1);
      }
    }
  }

  lemma ReachedBehind(pattern: seq<Segment>, i: int)
    requires pattern != [] && !pattern[0].Wildcard?
    ensures Reached(pattern[1..], i) <==> i >= 0 && Reached(pattern, i + 1)
  {
    var rest := pattern[1..];
    if i >= 0 && Reached(pattern, i + 1) {
      assert forall k :: 0 <= k < i ==> rest[k] == pattern[k + 1];
    }
    if Reached(rest, i) {
      forall k | 0 <= k < i + 1
        ensures !pattern[k].Wildcard?
      {
        assert k > 0 ==> rest[k - 1] == pattern[k];
      }
    }
  }

  /**
   * A request reaches a route exactly if the methods are the same, the segments match, and the route is of its kind:
   * plain and native HTTP routes for HTTP, and each other kind its own. Nothing is requested as native HTTP.
   */
  lemma AppliesToItsKind(route: Route, verb: Bytes, request: seq<Bytes>, requested: RouteKind)
    requires WildcardOnlyLast(route.pattern)
    ensures Applies(route, verb, request, requested) <==>
              && route.verb == verb && MatchesSegments(route.pattern, request)
              && (if requested == Http then route.kind in {Http, NativeHttp}
                  else requested != NativeHttp && route.kind == requested)
  {
    FitsIffSegmentsMatch(route.pattern, request);
    hide Fits, MatchesSegments;
  }

  /** A pattern and a request leave no choice of parameters. */
  lemma BoundIsUnique(pattern: seq<Segment>, request: seq<Bytes>, params: Params, others: Params)
    requires CountMatches(pattern, |request|) && Bound(pattern, request, params) && Bound(pattern, request, others)
    ensures params == others
  {
    forall name
      ensures name in params <==> name in others
      ensures name in params ==> params[name] == others[name]
    {
      assert LastBinder(pattern, |pattern|, name).None? || LastBinder(pattern, |pattern|, name).Some?;
    }
  }

  lemma NothingBoundYet(pattern: seq<Segment>, request: seq<Bytes>)
    requires CountMatches(pattern, |request|)
    ensures BoundBefore(pattern, request, 0, map[])
  {
  }

  lemma BindOneMore(pattern: seq<Segment>, request: seq<Bytes>, n: nat, params: Params)
    requires CountMatches(pattern, |request|) && n < |pattern| && BoundBefore(pattern, request, n, params)
    requires Reached(pattern, n) && n <= |request| && (!pattern[n].Wildcard? ==> n < |request|)
    ensures BoundBefore(pattern, request, n + 1,
                        if pattern[n].Literal? then params
                        else params[pattern[n].name := BoundValue(pattern, request, n)])
  {
    hide BoundValue;
  }

  /** Nothing is reached behind a wildcard. */
  lemma {:induction false} NothingBehindWildcard(
    pattern: seq<Segment>, request: seq<Bytes>, w: nat, n: nat, params: Params)
    requires CountMatches(pattern, |request|) && w < n <= |pattern| && pattern[w].Wildcard?
    requires BoundBefore(pattern, request, w + 1, params)
    ensures BoundBefore(pattern, request, n, params)
  {
    hide BoundBefore;
    if n > w + 1 {
      NothingBehindWildcard(pattern, request, w, n - 1, params);
      UnreachedBindsNothing(pattern, request, n - 1, params);
    }
  }

  lemma UnreachedBindsNothing(pattern: seq<Segment>, request: seq<Bytes>, k: nat, params: Params)
    requires CountMatches(pattern, |request|) && k < |pattern| && !Reached(pattern, k)
    requires BoundBefore(pattern, request, k, params)
    ensures BoundBefore(pattern, request, k + 1, params)
  {
    hide BoundValue, Reached;
    assert forall name :: LastBinder(pattern, k + 1, name) == LastBinder(pattern, k, name);
  }

  /** The first route of the table that applies, with its parameters. */
  method MatchRoute(routes: seq<Route>, verb: Bytes, path: Bytes, requested: RouteKind)
    returns (found: Option<RouteMatch>)
    ensures found.None? ==> forall i :: 0 <= i < |routes| ==> !Applies(routes[i], verb, PathSegments(path), requested)
    ensures found.Some? ==>
              var RouteMatch(index, params) := found.value;
              && index < |routes| && Applies(routes[index], verb, PathSegments(path), requested)
              && (forall i :: 0 <= i < index ==> !Applies(routes[i], verb, PathSegments(path), requested))
              && Bound(routes[index].pattern, PathSegments(path), params)
  {
    var request := PathSegments(path);
    for i := 0 to |routes|
      invariant forall j :: 0 <= j < i ==> !Applies(routes[j], verb, request, requested)
    {
      var route := routes[i];
      if !KindMatches(route.kind, requested) || route.verb != verb || !CountMatches(route.pattern, |request|) {
        continue;
      }
      var params := MatchPattern(route.pattern, request);
      if params.Some? {
        return Some(RouteMatch(i, params.value));
      }
    }
    found := None;
  }

  /** The matcher's loop over one pattern. */
  method MatchPattern(pattern: seq<Segment>, request: seq<Bytes>) returns (r: Option<Params>)
    requires CountMatches(pattern, |request|)
    ensures r.Some? <==> Fits(pattern, request)
    ensures r.Some? ==> Bound(pattern, request, r.value)
  {
    var params: Params := map[];
    NothingBoundYet(pattern, request);
    hide BoundBefore, CountMatches, Join;
    for i := 0 to |pattern|
      invariant forall k :: 0 <= k < i ==> !pattern[k].Wildcard?
      invariant forall k :: 0 <= k < i && pattern[k].Literal? ==> k < |request| && request[k] == pattern[k].text
      invariant BoundBefore(pattern, request, i, params)
    {
      assert Reached(pattern, i);
      ReachedIsInRange(pattern, |request|, i);
      BindOneMore(pattern, request, i, params);
      match pattern[i] {
        case Literal(text) =>
          if i >= |request| || request[i] != text {
            return None;
          }
        case Parameter(name) =>
          if i >= |request| {
            return None;
          }
          params := params[name := request[i]];
        case Wildcard(name) =>
          params := params[name := Join(request[i..])];
          NothingBehindWildcard(pattern, request, i, |pattern|, params);
          assert forall k :: Reached(pattern, k) ==> k <= i;
          return Some(params);
      }
    }
    r := Some(params);
  }

  // ---------------------------------------------------------------------------------------------
  // Rebuilding a path
  // ---------------------------------------------------------------------------------------------

  datatype PathError = MissingParameter(name: Bytes)

  /** What a segment of a handler path stands for. */
  function SegmentText(segment: Segment, params: Params): Result<Bytes, PathError> {
    match segment
    case Literal(text) => Ok(text)
    case Parameter(name) => if name in params then Ok(params[name]) else Err(MissingParameter(name))
    case Wildcard(name) => if name in params then Ok(params[name]) else Err(MissingParameter(name))
  }

  /** The first `n` segments, each behind a slash; the first missing parameter is the error. */
  function RenderPath(segments: seq<Segment>, n: nat, params: Params): Result<Bytes, PathError>
    requires n <= |segments|
  {
    if n == 0 then Ok([])
    else
      match RenderPath(segments, n - 1, params)
      case Err(e) => Err(e)
      case Ok(path) =>
        match SegmentText(segments[n - 1], params)
        case Err(e) => Err(e)
        case Ok(text) => Ok(path + [SLASH] + text)
  }

  function HandlerPath(publicPath: Bytes, segments: Option<seq<Segment>>, params: Params): Result<Bytes, PathError> {
    match segments
    case None => Ok(publicPath)
    case Some(handler) => if handler == [] then Ok([SLASH]) else RenderPath(handler, |handler|, params)
  }

  lemma {:induction false} RenderFails(segments: seq<Segment>, n: nat, m: nat, params: Params)
    requires n <= m <= |segments| && RenderPath(segments, n, params).Err?
    ensures RenderPath(segments, m, params) == RenderPath(segments, n, params)
  {
    if n < m {
      RenderFails(segments, n, m - 1, params);
    }
  }

  /** A path is rebuilt if its parameters are all bound, and the first that is not is the error. */
  lemma {:induction false} FirstMissingIsTheError(segments: seq<Segment>, n: nat, params: Params)
    requires n <= |segments|
    ensures RenderPath(segments, n, params).Ok? <==>
            forall i :: 0 <= i < n && !segments[i].Literal? ==> segments[i].name in params
    ensures RenderPath(segments, n, params).Err? ==>
              exists i :: 0 <= i < n && !segments[i].Literal? && segments[i].name !in params
                          && RenderPath(segments, n, params) == Err(MissingParameter(segments[i].name))
                          && forall j :: 0 <= j < i && !segments[j].Literal? ==> segments[j].name in params
  {
    if n > 0 {
      FirstMissingIsTheError(segments, n - 1, params);
    }
  }

  /** What reaches the handler is an absolute path: the public one as it is, or one rebuilt behind slashes. */
  lemma HandlerPathIsAbsolute(publicPath: Bytes, segments: Option<seq<Segment>>, params: Params)
    ensures segments.None? ==> HandlerPath(publicPath, segments, params) == Ok(publicPath)
    ensures segments.Some? && HandlerPath(publicPath, segments, params).Ok? ==>
              var path := HandlerPath(publicPath, segments, params).value; path != [] && path[0] == SLASH
    ensures segments == Some([]) ==> HandlerPath(publicPath, segments, params) == Ok([SLASH])
  {
    if segments.Some? && segments.value != [] && HandlerPath(publicPath, segments, params).Ok? {
      RenderedIsAbsolute(segments.value, |segments.value|, params);
    }
  }

  lemma {:induction false} RenderedIsAbsolute(segments: seq<Segment>, n: nat, params: Params)
    requires 0 < n <= |segments| && RenderPath(segments, n, params).Ok?
    ensures var path := RenderPath(segments, n, params).value; path != [] && path[0] == SLASH
  {
    if n > 1 {
      RenderedIsAbsolute(segments, n - 1, params);
    }
  }

  method NativeHandlerPath(publicPath: Bytes, segments: Option<seq<Segment>>, params: Params)
    returns (r: Result<Bytes, PathError>)
    ensures r == HandlerPath(publicPath, segments, params)
  {
    if segments.None? {
      return Ok(publicPath);
    }
    var handler := segments.value;
    if handler == [] {
      return Ok([SLASH]);
    }
    var path: Bytes := [];
    for i := 0 to |handler|
      invariant RenderPath(handler, i, params) == Ok(path)
    {
      ghost var before := path;
      path := path + [SLASH];
      match handler[i] {
        case Literal(text) =>
          path := path + text;
        case Parameter(name) =>
          if name !in params {
            RenderFails(handler, i + 1, |handler|, params);
            return Err(MissingParameter(name));
          }
          path := path + params[name];
        case Wildcard(name) =>
          if name !in params {
            RenderFails(handler, i + 1, |handler|, params);
            return Err(MissingParameter(name));
          }
          path := path + params[name];
      }
    }
    r := Ok(path);
  }

  /** Literals are segments, and a wildcard stands only last. */
  predicate Plain(pattern: seq<Segment>) {
    && (forall i :: 0 <= i < |pattern| && pattern[i].Literal? ==> IsSegment(pattern[i].text))
    && (forall i :: 0 <= i < |pattern| && pattern[i].Wildcard? ==> i == |pattern| - 1)
  }

  predicate SameName(pattern: seq<Segment>, i: nat, j: nat) {
    i < |pattern| && j < |pattern| && !pattern[i].Literal? && !pattern[j].Literal? && pattern[i].name == pattern[j].name
  }

  ghost predicate DistinctNames(pattern: seq<Segment>) {
    forall i, j :: 0 <= i < j ==> !SameName(pattern, i, j)
  }

  /** Positions that share a name would bind it to the same value. */
  ghost predicate SharedNamesAgree(pattern: seq<Segment>, request: seq<Bytes>) {
    forall i, j :: 0 <= i < j && SameName(pattern, i, j) ==>
      BoundValue(pattern, request, i) == BoundValue(pattern, request, j)
  }

  /** What the rebuilt path has at position `i`: the literal, or what the last position with that name bound. */
  ghost function TextAt(pattern: seq<Segment>, request: seq<Bytes>, i: nat): Bytes
    requires i < |pattern|
  {
    if pattern[i].Literal? then pattern[i].text
    else
      match LastBinder(pattern, |pattern|, pattern[i].name)
      case None => []
      case Some(last) => BoundValue(pattern, request, last)
  }

  lemma PlainIsReached(pattern: seq<Segment>, request: seq<Bytes>, i: nat)
    requires Plain(pattern) && CountMatches(pattern, |request|) && i < |pattern|
    ensures Reached(pattern, i) && i <= |request| && (!pattern[i].Wildcard? ==> i < |request|)
    ensures !pattern[i].Literal? ==>
              var last := LastBinder(pattern, |pattern|, pattern[i].name);
              last.Some? && i <= last.value && SameName(pattern, i, last.value)
  {
    assert Reached(pattern, i);
    ReachedIsInRange(pattern, |request|, i);
    if !pattern[i].Literal? {
      assert Binds(pattern, i, pattern[i].name);
    }
  }

  /** The rebuilt path has the text of the request at every position exactly if positions that share a name agree. */
  lemma TextsAgree(pattern: seq<Segment>, request: seq<Bytes>)
    requires Plain(pattern) && Fits(pattern, request)
    ensures SharedNamesAgree(pattern, request) <==>
            forall i :: 0 <= i < |pattern| ==> TextAt(pattern, request, i) == BoundValue(pattern, request, i)
  {
    forall i | 0 <= i < |pattern|
      ensures SharedNamesAgree(pattern, request) ==> TextAt(pattern, request, i) == BoundValue(pattern, request, i)
    {
      PlainIsReached(pattern, request, i);
    }
    forall i, j | 0 <= i < j && SameName(pattern, i, j)
      ensures TextAt(pattern, request, i) == TextAt(pattern, request, j)
    {
    }
  }

  lemma SegmentTextIsTextAt(pattern: seq<Segment>, request: seq<Bytes>, params: Params, i: nat)
    requires Plain(pattern) && Fits(pattern, request) && Bound(pattern, request, params) && i < |pattern|
    ensures SegmentText(pattern[i], params) == Ok(TextAt(pattern, request, i))
  {
    PlainIsReached(pattern, request, i);
  }

  /** The segments of the path rebuilt from the first `n` positions. */
  ghost function RebuiltSegments(pattern: seq<Segment>, request: seq<Bytes>, n: nat): seq<Bytes>
    requires n <= |pattern|
  {
    if n == 0 then []
    else RebuiltSegments(pattern, request, n - 1) + PathSegments(TextAt(pattern, request, n - 1))
  }

  lemma {:induction false} RenderHasRebuiltSegments(
    pattern: seq<Segment>, request: seq<Bytes>, params: Params, n: nat)
    requires Plain(pattern) && Fits(pattern, request) && Bound(pattern, request, params) && n <= |pattern|
    ensures var r := RenderPath(pattern, n, params);
            r.Ok? && PathSegments(r.value) == RebuiltSegments(pattern, request, n)
  {
    hide PathSegments, TextAt, Fits, Bound, Plain;
    if n == 0 {
      SegmentsOfSegment([]);
    } else {
      RenderHasRebuiltSegments(pattern, request, params, n - 1);
      SegmentTextIsTextAt(pattern, request, params, n - 1);
      SegmentsConcat(RenderPath(pattern, n - 1, params).value, TextAt(pattern, request, n - 1));
    }
  }

  ghost predicate AllSegments(request: seq<Bytes>) {
    forall i :: 0 <= i < |request| ==> IsSegment(request[i])
  }

  /** A parameter whose value is later replaced by the wildcard's. */
  predicate SharesWildcard(pattern: seq<Segment>, i: nat) {
    i < |pattern| - 1 && pattern[|pattern| - 1].Wildcard? && SameName(pattern, i, |pattern| - 1)
  }

  /** What each position contributes to the rebuilt segments. */
  lemma SegmentsOfText(pattern: seq<Segment>, request: seq<Bytes>, i: nat)
    requires Plain(pattern) && Fits(pattern, request) && AllSegments(request) && i < |pattern|
    ensures var text, last := TextAt(pattern, request, i), |pattern| - 1;
            && last <= |request|
            && (pattern[i].Wildcard? || SharesWildcard(pattern, i) ==>
                  text == Join(request[last..]) && PathSegments(text) == request[last..])
            && (!pattern[i].Wildcard? && !SharesWildcard(pattern, i) ==> PathSegments(text) == [text])
  {
    PlainIsReached(pattern, request, i);
    PlainIsReached(pattern, request, |pattern| - 1);
    hide PathSegments, Join;
    if pattern[i].Literal? {
      SegmentsOfSegment(pattern[i].text);
    } else {
      var binder := LastBinder(pattern, |pattern|, pattern[i].name).value;
      if SharesWildcard(pattern, i) {
        assert Binds(pattern, |pattern| - 1, pattern[i].name);
      }
      if pattern[binder].Wildcard? {
        SegmentsOfJoin(request[binder..]);
      } else {
        SegmentsOfSegment(request[binder]);
      }
    }
  }

  /** Positions before the wildcard that contribute one segment each stand in their places. */
  lemma {:induction false} SinglesStayInPlace(pattern: seq<Segment>, request: seq<Bytes>, n: nat)
    requires n <= |pattern|
    requires forall i :: 0 <= i < n ==> PathSegments(TextAt(pattern, request, i)) == [TextAt(pattern, request, i)]
    ensures var rebuilt := RebuiltSegments(pattern, request, n);
            |rebuilt| == n && forall i :: 0 <= i < n ==> rebuilt[i] == TextAt(pattern, request, i)
  {
    hide PathSegments, TextAt;
    if n > 0 {
      SinglesStayInPlace(pattern, request, n - 1);
    }
  }

  predicate SharedBefore(pattern: seq<Segment>, n: nat) {
    n > 0 && (SharesWildcard(pattern, n - 1) || SharedBefore(pattern, n - 1))
  }

  lemma {:induction false} SharedBeforeHolds(pattern: seq<Segment>, n: nat, i: nat)
    requires i < n && SharesWildcard(pattern, i)
    ensures SharedBefore(pattern, n)
  {
    if i < n - 1 {
      SharedBeforeHolds(pattern, n - 1, i);
    }
  }

  /** A parameter that shares the wildcard's name contributes as many segments as the wildcard, not one. */
  lemma {:induction false} SharingChangesTheLength(pattern: seq<Segment>, request: seq<Bytes>, n: nat)
    requires Plain(pattern) && Fits(pattern, request) && AllSegments(request)
    requires n < |pattern| && pattern[|pattern| - 1].Wildcard?
    ensures var length := |RebuiltSegments(pattern, request, n)|;
            && (|request| < |pattern| ==> length <= n && (SharedBefore(pattern, n) ==> length < n))
            && (|request| > |pattern| ==> length >= n && (SharedBefore(pattern, n) ==> length > n))
  {
    hide PathSegments, TextAt, Fits, Join;
    if n > 0 {
      SharingChangesTheLength(pattern, request, n - 1);
      SegmentsOfText(pattern, request, n - 1);
    }
  }

  /** A position with the request's own text adds just what it covers. */
  lemma AgreeingTextCovers(pattern: seq<Segment>, request: seq<Bytes>, i: nat)
    requires Plain(pattern) && Fits(pattern, request) && AllSegments(request) && i < |pattern|
    requires TextAt(pattern, request, i) == BoundValue(pattern, request, i)
    ensures request[..Covered(pattern, request, i)] + PathSegments(TextAt(pattern, request, i)) ==
            request[..Covered(pattern, request, i + 1)]
  {
    PlainIsReached(pattern, request, i);
    hide PathSegments, Fits, Join, TextAt;
    assert i == 0 || !pattern[i - 1].Wildcard?;
    if pattern[i].Wildcard? {
      SegmentsOfJoin(request[i..]);
      assert request[..i] + request[i..] == request[..|request|];
    } else {
      SegmentsOfSegment(request[i]);
      assert request[..i] + [request[i]] == request[..i + 1];
    }
  }

  lemma {:induction false} AgreeingTextsCover(pattern: seq<Segment>, request: seq<Bytes>, n: nat)
    requires Plain(pattern) && Fits(pattern, request) && AllSegments(request) && n <= |pattern|
    requires forall i :: 0 <= i < |pattern| ==> TextAt(pattern, request, i) == BoundValue(pattern, request, i)
    ensures RebuiltSegments(pattern, request, n) == request[..Covered(pattern, request, n)]
  {
    hide PathSegments, Fits, Plain, TextAt, BoundValue;
    if n > 0 {
      hide Covered;
      AgreeingTextsCover(pattern, request, n - 1);
      AgreeingTextCovers(pattern, request, n - 1);
    }
  }

  /** How many request segments the first `n` positions of a pattern cover. */
  function Covered(pattern: seq<Segment>, request: seq<Bytes>, n: nat): nat
    requires n <= |pattern|
  {
    if n > 0 && pattern[n - 1].Wildcard? then |request| else Min(n, |request|)
  }

  /** If every position before the wildcard contributes one segment, a difference shows in its place. */
  lemma SingleDifferenceShows(pattern: seq<Segment>, request: seq<Bytes>, i: nat, singles: nat)
    requires i < singles <= |pattern| <= singles + 1 && singles <= |request|
    requires forall k :: 0 <= k < singles ==> PathSegments(TextAt(pattern, request, k)) == [TextAt(pattern, request, k)]
    requires TextAt(pattern, request, i) != request[i]
    ensures RebuiltSegments(pattern, request, |pattern|) != request
  {
    hide PathSegments, TextAt;
    SinglesStayInPlace(pattern, request, singles);
    RebuiltExtends(pattern, request, singles);
    hide RebuiltSegments;
    assert RebuiltSegments(pattern, request, |pattern|)[i] == TextAt(pattern, request, i);
  }

  lemma RebuiltExtends(pattern: seq<Segment>, request: seq<Bytes>, n: nat)
    requires n <= |pattern| <= n + 1
    ensures RebuiltSegments(pattern, request, n) <= RebuiltSegments(pattern, request, |pattern|)
  {
    hide PathSegments, TextAt;
  }

  lemma ContributesOne(pattern: seq<Segment>, request: seq<Bytes>, k: nat)
    requires Plain(pattern) && Fits(pattern, request) && AllSegments(request) && k < |pattern|
    requires !pattern[k].Wildcard? && (SharesWildcard(pattern, k) ==> |request| == |pattern|)
    ensures PathSegments(TextAt(pattern, request, k)) == [TextAt(pattern, request, k)]
  {
    SegmentsOfText(pattern, request, k);
    hide PathSegments, TextAt, Fits;
    if SharesWildcard(pattern, k) {
      assert request[|pattern| - 1..] == [request[|pattern| - 1]];
    }
  }

  /** The wildcard's value put in a parameter's place as well makes the path too long or too short. */
  lemma SharingShows(pattern: seq<Segment>, request: seq<Bytes>)
    requires Plain(pattern) && Fits(pattern, request) && AllSegments(request)
    requires pattern != [] && pattern[|pattern| - 1].Wildcard?
    requires SharedBefore(pattern, |pattern| - 1) && |request| != |pattern|
    ensures RebuiltSegments(pattern, request, |pattern|) != request
  {
    var last := |pattern| - 1;
    SegmentsOfText(pattern, request, last);
    SharingChangesTheLength(pattern, request, last);
    hide PathSegments, TextAt, Fits, Join, SharedBefore;
  }

  lemma OnlyOthersDiffer(pattern: seq<Segment>, request: seq<Bytes>, i: nat)
    requires Plain(pattern) && Fits(pattern, request) && i < |pattern|
    requires TextAt(pattern, request, i) != BoundValue(pattern, request, i)
    ensures !pattern[i].Wildcard? && i < |request| && BoundValue(pattern, request, i) == request[i]
    ensures |request| >= |pattern| - 1 && (!pattern[|pattern| - 1].Wildcard? ==> |request| == |pattern|)
  {
    PlainIsReached(pattern, request, i);
  }

  /** A position whose text differs from the request's shows in the rebuilt segments. */
  lemma DifferenceShows(pattern: seq<Segment>, request: seq<Bytes>, i: nat)
    requires Plain(pattern) && Fits(pattern, request) && AllSegments(request) && i < |pattern|
    requires TextAt(pattern, request, i) != BoundValue(pattern, request, i)
    ensures RebuiltSegments(pattern, request, |pattern|) != request
  {
    OnlyOthersDiffer(pattern, request, i);
    var last := |pattern| - 1;
    var wild := pattern[last].Wildcard?;
    assert wild || |request| == |pattern|;
    assert forall k :: 0 <= k < last ==> !pattern[k].Wildcard?;
    hide PathSegments, TextAt, Fits, Join, SharedBefore, BoundValue, Plain, RebuiltSegments, SharesWildcard;
    if wild && SharedBefore(pattern, last) && |request| != |pattern| {
      SharingShows(pattern, request);
    } else {
      var singles := if wild then last else |pattern|;
      forall k | 0 <= k < singles
        ensures PathSegments(TextAt(pattern, request, k)) == [TextAt(pattern, request, k)]
      {
        if SharesWildcard(pattern, k) {
          SharesBeforeLast(pattern, k);
        }
        ContributesOne(pattern, request, k);
      }
      SingleDifferenceShows(pattern, request, i, singles);
    }
  }

  lemma SharesBeforeLast(pattern: seq<Segment>, k: nat)
    requires SharesWildcard(pattern, k)
    ensures pattern != [] && pattern[|pattern| - 1].Wildcard? && SharedBefore(pattern, |pattern| - 1)
  {
    SharedBeforeHolds(pattern, |pattern| - 1, k);
  }

  /**
   * Request by request: the path rebuilt from the bound parameters has the segments of the request exactly if positions
   * that share a name bound it to the same value.
   */
  lemma RebuildsIffSharedNamesAgree(pattern: seq<Segment>, path: Bytes, publicPath: Bytes, params: Params)
    requires Plain(pattern) && Fits(pattern, PathSegments(path)) && Bound(pattern, PathSegments(path), params)
    ensures var r := HandlerPath(publicPath, Some(pattern), params);
            r.Ok? && (PathSegments(r.value) == PathSegments(path) <==> SharedNamesAgree(pattern, PathSegments(path)))
  {
    var request := PathSegments(path);
    PathSegmentsAreSegments(path);
    hide Bound, Fits, Plain, TextAt, BoundValue;
    RenderHasRebuiltSegments(pattern, request, params, |pattern|);
    TextsAgree(pattern, request);
    if SharedNamesAgree(pattern, request) {
      AgreeingTextsCover(pattern, request, |pattern|);
      CoversAll(pattern, request);
    } else {
      var i :| 0 <= i < |pattern| && TextAt(pattern, request, i) != BoundValue(pattern, request, i);
      DifferenceShows(pattern, request, i);
    }
    SegmentsOfPath([SLASH]);
  }

  lemma CoversAll(pattern: seq<Segment>, request: seq<Bytes>)
    requires Fits(pattern, request)
    ensures request[..Covered(pattern, request, |pattern|)] == request
  {
  }

  /**
   * Matching and rebuilding are inverse when names differ: a path rebuilt from the parameters a route bound has the
   * segments of the path the request came with.
   */
  lemma RebuiltPathHasSameSegments(pattern: seq<Segment>, path: Bytes, publicPath: Bytes, params: Params)
    requires Plain(pattern) && DistinctNames(pattern)
    requires Fits(pattern, PathSegments(path)) && Bound(pattern, PathSegments(path), params)
    ensures var r := HandlerPath(publicPath, Some(pattern), params);
            r.Ok? && PathSegments(r.value) == PathSegments(path)
  {
    RebuildsIffSharedNamesAgree(pattern, path, publicPath, params);
    hide Fits, Bound, HandlerPath, PathSegments;
  }

  /** The request `path` that binds `params`, if it fits at all, is rebuilt to its own segments. */
  ghost predicate Rebuilds(pattern: seq<Segment>, publicPath: Bytes, path: Bytes, params: Params) {
    Fits(pattern, PathSegments(path)) && Bound(pattern, PathSegments(path), params) ==>
      var r := HandlerPath(publicPath, Some(pattern), params);
      r.Ok? && PathSegments(r.value) == PathSegments(path)
  }

  ghost predicate AlwaysRebuilds(pattern: seq<Segment>, publicPath: Bytes) {
    forall path, params :: Rebuilds(pattern, publicPath, path, params)
  }

  /** A pattern rebuilds every request that fits it exactly if its names differ. */
  lemma AlwaysRebuildsIffNamesDiffer(pattern: seq<Segment>, publicPath: Bytes)
    requires Plain(pattern)
    ensures AlwaysRebuilds(pattern, publicPath) <==> DistinctNames(pattern)
  {
    if DistinctNames(pattern) {
      forall path, params
        ensures Rebuilds(pattern, publicPath, path, params)
      {
        if Fits(pattern, PathSegments(path)) && Bound(pattern, PathSegments(path), params) {
          RebuiltPathHasSameSegments(pattern, path, publicPath, params);
        }
      }
    } else {
      var path, params := RequestThatIsNotRebuilt(pattern, publicPath);
      assert !Rebuilds(pattern, publicPath, path, params);
    }
  }

  /** A request with a different segment for every position that is not a literal. */
  function ProbeRequest(pattern: seq<Segment>): (request: seq<Bytes>)
    ensures |request| == |pattern|
    ensures forall i :: 0 <= i < |pattern| ==>
              request[i] == if pattern[i].Literal? then pattern[i].text else Marks(i + 1)
  {
    seq(|pattern|, i requires 0 <= i < |pattern| =>
      if pattern[i].Literal? then pattern[i].text else Marks(i + 1))
  }

  function Marks(n: nat): (s: Bytes)
    ensures |s| == n && SLASH !in s
  {
    seq(n, _ => 97)
  }

  lemma ProbeFits(pattern: seq<Segment>)
    requires Plain(pattern)
    ensures Fits(pattern, ProbeRequest(pattern)) && PathSegments(Join(ProbeRequest(pattern))) == ProbeRequest(pattern)
    ensures SharedNamesAgree(pattern, ProbeRequest(pattern)) ==> DistinctNames(pattern)
  {
    var request := ProbeRequest(pattern);
    assert forall i :: 0 <= i < |request| ==> IsSegment(request[i]);
    SegmentsOfJoin(request);
    hide PathSegments;
    forall i, j | 0 <= i < j && SameName(pattern, i, j)
      ensures BoundValue(pattern, request, i) != BoundValue(pattern, request, j)
    {
      ProbeValue(pattern, i);
      ProbeValue(pattern, j);
    }
  }

  lemma ProbeValue(pattern: seq<Segment>, i: nat)
    requires Plain(pattern) && i < |pattern| && !pattern[i].Literal?
    ensures |BoundValue(pattern, ProbeRequest(pattern), i)| == i + 1
  {
    if pattern[i].Wildcard? {
      assert ProbeRequest(pattern)[i..] == [Marks(i + 1)];
    }
  }

  lemma RequestThatIsNotRebuilt(pattern: seq<Segment>, publicPath: Bytes) returns (path: Bytes, params: Params)
    requires Plain(pattern) && !DistinctNames(pattern)
    ensures !Rebuilds(pattern, publicPath, path, params)
  {
    path := Join(ProbeRequest(pattern));
    ProbeFits(pattern);
    params := BoundParams(pattern, ProbeRequest(pattern), |pattern|);
    RebuildsIffSharedNamesAgree(pattern, path, publicPath, params);
    hide PathSegments, HandlerPath, SharedNamesAgree, DistinctNames, ProbeRequest, Join, BoundBefore, Plain;
  }

  /** There always are parameters: each position binds in turn. */
  lemma {:induction false} BoundParams(pattern: seq<Segment>, request: seq<Bytes>, n: nat) returns (params: Params)
    requires Plain(pattern) && CountMatches(pattern, |request|) && n <= |pattern|
    ensures BoundBefore(pattern, request, n, params)
  {
    if n == 0 {
      NothingBoundYet(pattern, request);
      params := map[];
    } else {
      params := BoundParams(pattern, request, n - 1);
      PlainIsReached(pattern, request, n - 1);
      BindOneMore(pattern, request, n - 1, params);
      hide BoundBefore, Plain;
      if !pattern[n - 1].Literal? {
        params := params[pattern[n - 1].name := BoundValue(pattern, request, n - 1)];
      }
    }
  }

  /** With a name used twice the rebuilt path repeats the last value. */
  lemma RepeatedNameLosesASegment(name: Bytes, a: Bytes, b: Bytes, params: Params)
    requires IsSegment(a) && IsSegment(b)
    requires Bound([Parameter(name), Parameter(name)], [a, b], params)
    ensures RenderPath([Parameter(name), Parameter(name)], 2, params) == Ok([SLASH] + b + [SLASH] + b)
    ensures Plain([Parameter(name), Parameter(name)]) && !DistinctNames([Parameter(name), Parameter(name)])
  {
    var pattern := [Parameter(name), Parameter(name)];
    assert SameName(pattern, 0, 1);
    assert Binds(pattern, 1, name) && LastBinder(pattern, 2, name) == Some(1);
    assert params[name] == b;
    var none: Bytes := [];
    assert RenderPath(pattern, 0, params) == Ok(none) && none + [SLASH] == [SLASH];
    assert RenderPath(pattern, 1, params) == Ok([SLASH] + b);
  }
}
