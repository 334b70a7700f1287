/** The multipart/form-data parser (section 5.1.1 of RFC 2046, section 4 of RFC 7578). */
module Multipart {
  import opened Common
  import opened Text

  // ---------------------------------------------------------------------------------------------
  // Part headers
  // ---------------------------------------------------------------------------------------------

  const CR: byte := 13
  const LF: byte := 10
  const CRLF: Bytes := [CR, LF]
  const BLANK_LINE: Bytes := [CR, LF, CR, LF]
  const DASHES: Bytes := [45, 45]
  const COLON: byte := 58
  const SEMICOLON: byte := 59
  const EQUALS: byte := 61
  const QUOTE: byte := 34

  const FORM_DATA: Bytes := Ascii("form-data")
  const NAME: Bytes := Ascii("name")
  const FILENAME: Bytes := Ascii("filename")
  const EXTENDED_FILENAME: Bytes := Ascii("filename*")
  const CONTENT_DISPOSITION: Bytes := Ascii("content-disposition")
  const CONTENT_TYPE: Bytes := Ascii("content-type")

  datatype MultipartError =
    | NotAtBoundary
    | TrailingBytes
    | BadSeparator
    | NoHeaderTerminator
    | HeadersNotUtf8
    | BadHeaderLine
    | NoContentDisposition
    | NotFormData
    | NoFieldName
    | NoClosingBoundary
    | FieldNotUtf8
    | LostAlignment

  /** The pieces between CRLF pairs, found left to right. */
  function SplitLines(s: Bytes): (lines: seq<Bytes>)
    ensures |lines| > 0
  {
    if s == [] then [[]]
    else if |s| >= 2 && s[..2] == CRLF then [[]] + SplitLines(s[2..])
    else var rest := SplitLines(s[1..]); [[s[0]] + rest[0]] + rest[1..]
  }

  /** Later lines win; empty lines do not count; a line without a colon is an error. */
  function HeadersOf(lines: seq<Bytes>): Result<map<Bytes, Bytes>, MultipartError> {
    if lines == [] then Ok(map[])
    else
      match HeadersOf(lines[..|lines| - 1])
      case Err(e) => Err(e)
      case Ok(headers) =>
        var line := lines[|lines| - 1];
        if line == [] then Ok(headers)
        else
          match SplitOnce(line, COLON)
          case None => Err(BadHeaderLine)
          case Some((name, value)) => Ok(headers[Lower(Trim(name)) := Trim(value)])
  }

  function PartHeaders(block: Bytes): Result<map<Bytes, Bytes>, MultipartError> {
    if !ValidUtf8(block) then Err(HeadersNotUtf8) else HeadersOf(SplitLines(block))
  }

  method ParsePartHeaders(block: Bytes) returns (r: Result<map<Bytes, Bytes>, MultipartError>)
    ensures r == PartHeaders(block)
  {
    if !ValidUtf8(block) {
      return Err(HeadersNotUtf8);
    }
    var headers: map<Bytes, Bytes> := map[];
    var lines := SplitLines(block);
    for i := 0 to |lines|
      invariant HeadersOf(lines[..i]) == Ok(headers)
    {
      assert lines[..i + 1][..i] == lines[..i];
      var line := lines[i];
      if line == [] {
        continue;
      }
      var split := SplitOnce(line, COLON);
      if split.None? {
        HeadersFail(lines, i + 1);
        return Err(BadHeaderLine);
      }
      var (name, value) := split.value;
      headers := headers[Lower(Trim(name)) := Trim(value)];
    }
    assert lines[..|lines|] == lines;
    r := Ok(headers);
  }

  /** The first bad line decides. */
  lemma {:induction false} HeadersFail(lines: seq<Bytes>, n: nat)
    requires n <= |lines| && HeadersOf(lines[..n]).Err?
    ensures HeadersOf(lines) == HeadersOf(lines[..n])
  {
    if n < |lines| {
      var front := lines[..|lines| - 1];
      assert front[..n] == lines[..n];
      HeadersFail(front, n);
    } else {
      assert lines[..n] == lines;
    }
  }

  // ---------------------------------------------------------------------------------------------
  // Content-Disposition
  // ---------------------------------------------------------------------------------------------

  datatype Disposition = Disposition(name: Bytes, filename: Option<Bytes>)

  /** Outer quotes are dropped; nothing inside them is unescaped. */
  function Unquoted(value: Bytes): Bytes {
    if |value| >= 2 && value[0] == QUOTE && value[|value| - 1] == QUOTE then value[1..|value| - 1] else value
  }

  /** The name and filename after one more parameter; one without `=` is skipped. */
  function WithParameter(before: (Option<Bytes>, Option<Bytes>), part: Bytes): (Option<Bytes>, Option<Bytes>) {
    match SplitOnce(Trim(part), EQUALS)
    case None => before
    case Some((key, value)) =>
      if EqualsIgnoringCase(Trim(key), NAME) then (Some(Unquoted(Trim(value))), before.1)
      else if EqualsIgnoringCase(Trim(key), FILENAME) || EqualsIgnoringCase(Trim(key), EXTENDED_FILENAME)
      then (before.0, Some(Unquoted(Trim(value))))
      else before
  }

  /** The name and filename parameters; of several the last wins. */
  function Parameters(parts: seq<Bytes>): (Option<Bytes>, Option<Bytes>) {
    if parts == [] then (None, None)
    else WithParameter(Parameters(parts[..|parts| - 1]), parts[|parts| - 1])
  }

  function ContentDisposition(value: Bytes): Result<Disposition, MultipartError> {
    var parts := Split(value, SEMICOLON);
    if !EqualsIgnoringCase(Trim(parts[0]), FORM_DATA) then Err(NotFormData)
    else
      match Parameters(parts[1..])
      case (None, _) => Err(NoFieldName)
      case (Some(name), filename) => Ok(Disposition(name, filename))
  }

  lemma ParametersOfPrefix(parts: seq<Bytes>, n: nat)
    requires 0 < n <= |parts|
    ensures Parameters(parts[..n]) == WithParameter(Parameters(parts[..n - 1]), parts[n - 1])
  {
    hide WithParameter;
    assert parts[..n][..n - 1] == parts[..n - 1];
  }

  method ParseContentDisposition(value: Bytes) returns (r: Result<Disposition, MultipartError>)
    ensures r == ContentDisposition(value)
  {
    assert Parameters([]) == (None, None);
    hide Parameters, Trim, SplitOnce, Unquoted, EqualsIgnoringCase, Split;
    var parts := Split(value, SEMICOLON);
    if !EqualsIgnoringCase(Trim(parts[0]), FORM_DATA) {
      return Err(NotFormData);
    }
    var name: Option<Bytes> := None;
    var filename: Option<Bytes> := None;
    ghost var rest := parts[1..];
    for i := 1 to |parts|
      invariant Parameters(rest[..i - 1]) == (name, filename)
    {
      ParametersOfPrefix(rest, i);
      var split := SplitOnce(Trim(parts[i]), EQUALS);
      if split.None? {
        continue;
      }
      var (key, parameter) := split.value;
      var decoded := Unquoted(Trim(parameter));
      if EqualsIgnoringCase(Trim(key), NAME) {
        name := Some(decoded);
        continue;
      }
      if EqualsIgnoringCase(Trim(key), FILENAME) || EqualsIgnoringCase(Trim(key), EXTENDED_FILENAME) {
        filename := Some(decoded);
      }
    }
    assert rest[..|rest|] == rest;
    if name.None? {
      return Err(NoFieldName);
    }
    r := Ok(Disposition(name.value, filename));
  }

  // ---------------------------------------------------------------------------------------------
  // The body
  // ---------------------------------------------------------------------------------------------

  datatype Field = Field(name: Bytes, value: Bytes)

  /** A file is a slice of the body. */
  datatype File = File(fieldName: Bytes, filename: Bytes, contentType: Option<Bytes>, start: nat, length: nat)

  datatype Part = FieldPart(field: Field) | FilePart(file: File)

  datatype Form = Form(fields: seq<Field>, files: seq<File>)

  function Marker(boundary: Bytes): Bytes {
    DASHES + boundary
  }

  function Delimiter(boundary: Bytes): Bytes {
    CRLF + DASHES + boundary
  }

  datatype Heading = Heading(disposition: Disposition, contentType: Option<Bytes>)

  /** What a header block says about its part. */
  function HeadingOf(block: Bytes): Result<Heading, MultipartError> {
    match PartHeaders(block)
    case Err(e) => Err(e)
    case Ok(headers) =>
      if CONTENT_DISPOSITION !in headers then Err(NoContentDisposition)
      else
        match ContentDisposition(headers[CONTENT_DISPOSITION])
        case Err(e) => Err(e)
        case Ok(disposition) =>
          Ok(Heading(disposition, if CONTENT_TYPE in headers then Some(headers[CONTENT_TYPE]) else None))
  }

  /** The part with this heading and content, which starts at `start` in the body. */
  function PartOf(heading: Heading, content: Bytes, start: nat): Result<Part, MultipartError> {
    match heading.disposition.filename
    case Some(filename) =>
      Ok(FilePart(File(heading.disposition.name, filename, heading.contentType, start, |content|)))
    case None =>
      if ValidUtf8(content) then Ok(FieldPart(Field(heading.disposition.name, content))) else Err(FieldNotUtf8)
  }

  /** Fields and files, each in the order of their parts. */
  function Collect(parts: seq<Part>): Form {
    if parts == [] then Form([], [])
    else
      var form := Collect(parts[..|parts| - 1]);
      match parts[|parts| - 1]
      case FieldPart(field) => form.(fields := form.fields + [field])
      case FilePart(file) => form.(files := form.files + [file])
  }

  /** The end of the body after a closing boundary. */
  function ParseEnd(body: Bytes, cursor: nat): Result<seq<Part>, MultipartError> {
    if (if OccursAt(body, cursor, CRLF) then cursor + 2 else cursor) == |body| then Ok([]) else Err(TrailingBytes)
  }

  /** The parts from the boundary marker at `cursor` on. */
  function ParseFrom(body: Bytes, boundary: Bytes, cursor: nat): Result<seq<Part>, MultipartError>
    decreases |body| - cursor
  {
    var at := cursor + |Marker(boundary)|;
    if OccursAt(body, at, DASHES) then ParseEnd(body, at + 2)
    else if !OccursAt(body, at, CRLF) then Err(BadSeparator)
    else
      match ParsePart(body, boundary, at + 2)
      case Err(e) => Err(e)
      case Ok((part, end)) =>
        if !OccursAt(body, end + 2, Marker(boundary)) then Err(LostAlignment)
        else
          match ParseFrom(body, boundary, end + 2)
          case Err(e) => Err(e)
          case Ok(parts) => Ok([part] + parts)
  }

  /** The part whose header block starts at `cursor`, and where the delimiter after it starts. */
  function ParsePart(body: Bytes, boundary: Bytes, cursor: nat): (r: Result<(Part, nat), MultipartError>)
    ensures r.Ok? ==> cursor < r.value.1
    requires cursor <= |body|
  {
    match FindFrom(body, cursor, BLANK_LINE)
    case None => Err(NoHeaderTerminator)
    case Some(headersEnd) =>
      FindIsLeast(body, cursor, BLANK_LINE);
      match HeadingOf(body[cursor..headersEnd])
      case Err(e) => Err(e)
      case Ok(heading) =>
        var start := headersEnd + 4;
        match FindFrom(body, start, Delimiter(boundary))
        case None => Err(NoClosingBoundary)
        case Some(end) =>
          FindIsLeast(body, start, Delimiter(boundary));
          match PartOf(heading, body[start..end], start)
          case Err(e) => Err(e)
          case Ok(part) => Ok((part, end))
  }

  function Parse(body: Bytes, boundary: Bytes): Result<Form, MultipartError> {
    if !OccursAt(body, 0, Marker(boundary)) then Err(NotAtBoundary) else Collected([], ParseFrom(body, boundary, 0))
  }

  function Collected(done: seq<Part>, rest: Result<seq<Part>, MultipartError>): Result<Form, MultipartError> {
    match rest
    case Err(e) => Err(e)
    case Ok(parts) => Ok(Collect(done + parts))
  }

  /** One turn of the parser's loop, from the part's header block to the delimiter after it. */
  method ReadPart(body: Bytes, boundary: Bytes, start: nat) returns (r: Result<(Part, nat), MultipartError>)
    requires start <= |body|
    ensures r == ParsePart(body, boundary, start)
  {
    hide HeadersOf, ContentDisposition, ValidUtf8, Delimiter;
    var cursor := start;
    var headersEnd := FindFrom(body, cursor, BLANK_LINE);
    if headersEnd.None? {
      return Err(NoHeaderTerminator);
    }
    FindIsLeast(body, cursor, BLANK_LINE);
    var partHeaders := ParsePartHeaders(body[cursor..headersEnd.value]);
    if partHeaders.Err? {
      return Err(partHeaders.error);
    }
    cursor := headersEnd.value + 4;
    if CONTENT_DISPOSITION !in partHeaders.value {
      return Err(NoContentDisposition);
    }
    var disposition := ParseContentDisposition(partHeaders.value[CONTENT_DISPOSITION]);
    if disposition.Err? {
      return Err(disposition.error);
    }
    var partEnd := FindFrom(body, cursor, Delimiter(boundary));
    if partEnd.None? {
      return Err(NoClosingBoundary);
    }
    FindIsLeast(body, cursor, Delimiter(boundary));
    var content := body[cursor..partEnd.value];
    var name := disposition.value.name;
    if disposition.value.filename.Some? {
      var contentType := if CONTENT_TYPE in partHeaders.value then Some(partHeaders.value[CONTENT_TYPE]) else None;
      var file := File(name, disposition.value.filename.value, contentType, cursor, |content|);
      return Ok((FilePart(file), partEnd.value));
    }
    if !ValidUtf8(content) {
      return Err(FieldNotUtf8);
    }
    r := Ok((FieldPart(Field(name, content)), partEnd.value));
  }

  lemma CollectNothing(rest: Result<seq<Part>, MultipartError>)
    ensures Collect([]) == Form([], [])
    ensures Collected([], rest) == match rest case Err(e) => Err(e) case Ok(parts) => Ok(Collect(parts))
  {
    if rest.Ok? {
      assert [] + rest.value == rest.value;
    }
  }

  lemma CollectOneMore(done: seq<Part>, part: Part, rest: Result<seq<Part>, MultipartError>)
    ensures Collect(done + [part]) ==
            (var form := Collect(done);
             match part
             case FieldPart(field) => form.(fields := form.fields + [field])
             case FilePart(file) => form.(files := form.files + [file]))
    ensures Collected(done + [part], rest) ==
            Collected(done, match rest case Err(e) => Err(e) case Ok(parts) => Ok([part] + parts))
  {
    assert (done + [part])[..|done|] == done;
    if rest.Ok? {
      assert done + [part] + rest.value == done + ([part] + rest.value);
    }
  }

  lemma OccursWithin(haystack: Bytes, i: nat, needle: Bytes)
    requires OccursAt(haystack, i, needle)
    ensures i + |needle| <= |haystack|
  {
  }

  /** What the parser's next turn decides, given the parts it has already. */
  lemma NextTurn(body: Bytes, boundary: Bytes, cursor: nat, done: seq<Part>)
    ensures var at := cursor + |Marker(boundary)|;
            var whole := Collected(done, ParseFrom(body, boundary, cursor));
            if OccursAt(body, at, DASHES) then
              var end := if OccursAt(body, at + 2, CRLF) then at + 4 else at + 2;
              whole == if end == |body| then Ok(Collect(done)) else Err(TrailingBytes)
            else if !OccursAt(body, at, CRLF) then whole == Err(BadSeparator)
            else
              match ParsePart(body, boundary, at + 2)
              case Err(e) => whole == Err(e)
              case Ok((part, end)) =>
                if !OccursAt(body, end + 2, Marker(boundary)) then whole == Err(LostAlignment)
                else whole == Collected(done + [part], ParseFrom(body, boundary, end + 2))
  {
    hide ParsePart, OccursAt, Collect;
    assert done + [] == done;
    var at := cursor + |Marker(boundary)|;
    if !OccursAt(body, at, DASHES) && OccursAt(body, at, CRLF) {
      OccursWithin(body, at, CRLF);
      var read := ParsePart(body, boundary, at + 2);
      if read.Ok? {
        CollectOneMore(done, read.value.0, ParseFrom(body, boundary, read.value.1 + 2));
      }
    }
  }

  method ParseMultipartForm(body: Bytes, boundary: Bytes) returns (r: Result<Form, MultipartError>)
    ensures r == Parse(body, boundary)
  {
    hide FindFrom, ParsePart, ParseFrom, ParseEnd, Collect, Collected, OccursAt;
    var marker := Marker(boundary);
    var cursor := 0;
    var fields: seq<Field> := [];
    var files: seq<File> := [];
    ghost var done: seq<Part> := [];
    CollectNothing(ParseFrom(body, boundary, 0));
    if !OccursAt(body, 0, marker) {
      return Err(NotAtBoundary);
    }
    OccursWithin(body, 0, marker);
    while true
      invariant cursor + |marker| <= |body|
      invariant Collect(done) == Form(fields, files)
      invariant Parse(body, boundary) == Collected(done, ParseFrom(body, boundary, cursor))
      decreases |body| - cursor
    {
      NextTurn(body, boundary, cursor, done);
      cursor := cursor + |marker|;
      if OccursAt(body, cursor, DASHES) {
        cursor := cursor + 2;
        if OccursAt(body, cursor, CRLF) {
          cursor := cursor + 2;
        }
        if cursor != |body| {
          return Err(TrailingBytes);
        }
        return Ok(Form(fields, files));
      }
      if !OccursAt(body, cursor, CRLF) {
        return Err(BadSeparator);
      }
      OccursWithin(body, cursor, CRLF);
      cursor := cursor + 2;
      var read := ReadPart(body, boundary, cursor);
      if read.Err? {
        return Err(read.error);
      }
      var (part, partEnd) := read.value;
      match part {
        case FieldPart(field) => fields := fields + [field];
        case FilePart(file) => files := files + [file];
      }
      cursor := partEnd + 2;
      if !OccursAt(body, cursor, marker) {
        return Err(LostAlignment);
      }
      CollectOneMore(done, part, ParseFrom(body, boundary, cursor));
      assert cursor + |marker| <= |body| by {
        OccursWithin(body, cursor, marker);
      }
      done := done + [part];
    }
  }

  // ---------------------------------------------------------------------------------------------
  // The grammar the parser accepts
  // ---------------------------------------------------------------------------------------------

  /** One part as it stands in a body: its header block and its content. */
  datatype Section = Section(block: Bytes, content: Bytes)

  function RenderSection(boundary: Bytes, section: Section): Bytes {
    Marker(boundary) + CRLF + section.block + BLANK_LINE + section.content + CRLF
  }

  /** A whole body; `tail` is what follows the closing boundary. */
  function Render(boundary: Bytes, sections: seq<Section>, tail: Bytes): Bytes {
    if sections == [] then Marker(boundary) + DASHES + tail
    else RenderSection(boundary, sections[0]) + Render(boundary, sections[1..], tail)
  }

  /** The blank line that ends the header block is the first one, and the delimiter that ends the content likewise. */
  predicate WellDelimited(boundary: Bytes, section: Section) {
    && FindFrom(section.block + BLANK_LINE, 0, BLANK_LINE) == Some(|section.block|)
    && FindFrom(section.content + Delimiter(boundary), 0, Delimiter(boundary)) == Some(|section.content|)
  }

  predicate ProperTail(tail: Bytes) {
    tail == [] || tail == CRLF
  }

  /** Where the content of a section that starts at `cursor` starts. */
  function ContentStart(boundary: Bytes, section: Section, cursor: nat): nat {
    cursor + |Marker(boundary)| + 2 + |section.block| + 4
  }

  function SectionEnd(boundary: Bytes, section: Section, cursor: nat): nat {
    ContentStart(boundary, section, cursor) + |section.content| + 2
  }

  /** The section that starts at `cursor` is well delimited and means this part. */
  predicate Means(boundary: Bytes, section: Section, cursor: nat, part: Part) {
    && WellDelimited(boundary, section)
    && HeadingOf(section.block).Ok?
    && PartOf(HeadingOf(section.block).value, section.content, ContentStart(boundary, section, cursor)) == Ok(part)
  }

  /** The sections, the first of which starts at `cursor`, mean these parts in this order. */
  predicate AllMean(boundary: Bytes, sections: seq<Section>, cursor: nat, parts: seq<Part>) {
    if sections == [] then parts == []
    else
      && parts != []
      && Means(boundary, sections[0], cursor, parts[0])
      && AllMean(boundary, sections[1..], SectionEnd(boundary, sections[0], cursor), parts[1..])
  }

  lemma DelimiterEndsInMarker(body: Bytes, boundary: Bytes, i: nat)
    requires OccursAt(body, i, Delimiter(boundary))
    ensures OccursAt(body, i + 2, Marker(boundary)) && body[i..i + 2] == CRLF
  {
    var delimiter := Delimiter(boundary);
    assert body[i + 2..i + |delimiter|] == body[i..i + |delimiter|][2..] && delimiter[2..] == Marker(boundary);
    assert body[i..i + 2] == body[i..i + |delimiter|][..2];
  }

  lemma {:induction false} HeadersNeverLoseAlignment(lines: seq<Bytes>)
    ensures HeadersOf(lines) != Err(LostAlignment)
  {
    if lines != [] {
      HeadersNeverLoseAlignment(lines[..|lines| - 1]);
    }
  }

  lemma PartNeverLosesAlignment(body: Bytes, boundary: Bytes, cursor: nat)
    requires cursor <= |body|
    ensures ParsePart(body, boundary, cursor) != Err(LostAlignment)
  {
    var blank := FindFrom(body, cursor, BLANK_LINE);
    if blank.Some? {
      FindIsLeast(body, cursor, BLANK_LINE);
      var block := body[cursor..blank.value];
      HeadingNeverLosesAlignment(block);
      hide HeadingOf, FindFrom, ValidUtf8, PartOf;
      if HeadingOf(block).Ok? {
        PartOfNeverLosesAlignment(HeadingOf(block).value, blank.value + 4);
      }
    }
  }

  lemma HeadingNeverLosesAlignment(block: Bytes)
    ensures HeadingOf(block) != Err(LostAlignment)
  {
    HeadersNeverLoseAlignment(SplitLines(block));
    hide HeadersOf, FindFrom, ValidUtf8;
  }

  lemma PartOfNeverLosesAlignment(heading: Heading, start: nat)
    ensures forall content :: PartOf(heading, content, start) != Err(LostAlignment)
  {
    hide ValidUtf8;
  }

  lemma DelimiterIsNotEmpty(boundary: Bytes)
    ensures |Delimiter(boundary)| == 2 + |Marker(boundary)| && |Marker(boundary)| >= 2
  {
  }

  /** Where a part that was read is split. */
  lemma PartPieces(body: Bytes, boundary: Bytes, cursor: nat) returns (blank: nat, end: nat)
    requires cursor <= |body| && ParsePart(body, boundary, cursor).Ok?
    ensures cursor <= blank && blank + 4 <= end <= |body|
    ensures FindFrom(body, cursor, BLANK_LINE) == Some(blank)
    ensures FindFrom(body, blank + 4, Delimiter(boundary)) == Some(end)
    ensures HeadingOf(body[cursor..blank]).Ok?
    ensures var part := PartOf(HeadingOf(body[cursor..blank]).value, body[blank + 4..end], blank + 4);
            part.Ok? && ParsePart(body, boundary, cursor) == Ok((part.value, end))
  {
    hide FindFrom, HeadingOf, PartOf, Delimiter;
    blank := FindFrom(body, cursor, BLANK_LINE).value;
    FindMeansOccurs(body, cursor, BLANK_LINE);
    end := FindFrom(body, blank + 4, Delimiter(boundary)).value;
    FindMeansOccurs(body, blank + 4, Delimiter(boundary));
  }

  /** The section whose header block starts at `cursor` means the part that was read, and ends where it ends. */
  predicate SectionReads(boundary: Bytes, section: Section, cursor: nat, read: Result<(Part, nat), MultipartError>) {
    && HeadingOf(section.block).Ok?
    && var start := cursor + |section.block| + 4;
       match PartOf(HeadingOf(section.block).value, section.content, start)
       case Err(_) => false
       case Ok(part) => read == Ok((part, start + |section.content|))
  }

  lemma CutsAreWellDelimited(body: Bytes, boundary: Bytes, cursor: nat, blank: nat, end: nat)
    requires FindFrom(body, cursor, BLANK_LINE) == Some(blank)
    requires FindFrom(body, blank + 4, Delimiter(boundary)) == Some(end)
    ensures cursor <= blank && blank + 4 <= end && end + 2 <= |body|
    ensures WellDelimited(boundary, Section(body[cursor..blank], body[blank + 4..end]))
    ensures body[cursor..blank + 4] == body[cursor..blank] + BLANK_LINE
    ensures OccursAt(body, end, Delimiter(boundary))
  {
    hide FindFrom, Delimiter, OccursAt;
    DelimiterIsNotEmpty(boundary);
    CutAtOccurrence(body, cursor, BLANK_LINE, blank);
    CutAtOccurrence(body, blank + 4, Delimiter(boundary), end);
    FindMeansOccurs(body, blank + 4, Delimiter(boundary));
  }

  lemma PiecesJoin(body: Bytes, cursor: nat, blank: nat, end: nat)
    requires cursor <= blank && blank + 4 <= end && end + 2 <= |body|
    requires body[cursor..blank + 4] == body[cursor..blank] + BLANK_LINE && body[end..end + 2] == CRLF
    ensures body[cursor..end + 2] == body[cursor..blank] + BLANK_LINE + body[blank + 4..end] + CRLF
  {
  }

  /** A part that was read is a section of the body, and the next marker follows it. */
  lemma PartIsSection(body: Bytes, boundary: Bytes, cursor: nat) returns (section: Section)
    requires cursor <= |body| && ParsePart(body, boundary, cursor).Ok?
    ensures WellDelimited(boundary, section)
    ensures SectionReads(boundary, section, cursor, ParsePart(body, boundary, cursor))
    ensures var end := ParsePart(body, boundary, cursor).value.1;
            && end + 2 <= |body| && body[cursor..end + 2] == section.block + BLANK_LINE + section.content + CRLF
            && OccursAt(body, end + 2, Marker(boundary))
  {
    hide HeadingOf, PartOf, FindFrom, ParsePart, WellDelimited, OccursAt, Marker, Delimiter;
    var blank, end := PartPieces(body, boundary, cursor);
    section := Section(body[cursor..blank], body[blank + 4..end]);
    CutsAreWellDelimited(body, boundary, cursor, blank, end);
    DelimiterEndsInMarker(body, boundary, end);
    PiecesJoin(body, cursor, blank, end);
  }

  /** The delimiter that ends a part is a line break and the next marker, so the parser cannot lose its place. */
  lemma {:induction false} NeverLosesAlignment(body: Bytes, boundary: Bytes, cursor: nat)
    ensures ParseFrom(body, boundary, cursor) != Err(LostAlignment)
    decreases |body| - cursor
  {
    hide ParsePart, FindFrom, HeadingOf, PartOf, OccursAt;
    var at := cursor + |Marker(boundary)|;
    if !OccursAt(body, at, DASHES) && OccursAt(body, at, CRLF) {
      OccursWithin(body, at, CRLF);
      PartNeverLosesAlignment(body, boundary, at + 2);
      var read := ParsePart(body, boundary, at + 2);
      if read.Ok? {
        var _ := PartIsSection(body, boundary, at + 2);
        NeverLosesAlignment(body, boundary, read.value.1 + 2);
      }
    }
  }

  lemma EndIsRendered(body: Bytes, boundary: Bytes, cursor: nat) returns (tail: Bytes)
    requires OccursAt(body, cursor, Marker(boundary)) && OccursAt(body, cursor + |Marker(boundary)|, DASHES)
    requires ParseEnd(body, cursor + |Marker(boundary)| + 2).Ok?
    ensures ProperTail(tail) && body[cursor..] == Render(boundary, [], tail)
    ensures ParseEnd(body, cursor + |Marker(boundary)| + 2) == Ok([])
  {
    var at := cursor + |Marker(boundary)|;
    tail := body[at + 2..];
    hide Marker;
    TwoSlices(body, cursor, at, |body|);
    TwoSlices(body, at, at + 2, |body|);
    assert Marker(boundary) + (DASHES + tail) == Marker(boundary) + DASHES + tail;
  }

  lemma SectionIsRendered(body: Bytes, boundary: Bytes, cursor: nat, section: Section, end: nat)
    requires OccursAt(body, cursor, Marker(boundary)) && OccursAt(body, cursor + |Marker(boundary)|, CRLF)
    requires cursor + |Marker(boundary)| + 2 <= end <= |body|
    requires body[cursor + |Marker(boundary)| + 2..end] == section.block + BLANK_LINE + section.content + CRLF
    ensures body[cursor..] == RenderSection(boundary, section) + body[end..]
  {
    assert |CRLF| == 2;
    hide *;
    var at := cursor + |Marker(boundary)|;
    OccurrenceIsSlice(body, cursor, Marker(boundary));
    OccurrenceIsSlice(body, at, CRLF);
    ThreeSlices(body, cursor, at, at + 2, end);
    RegroupSection(boundary, section, body[end..]);
  }

  lemma OccurrenceIsSlice(haystack: Bytes, i: nat, needle: Bytes)
    requires OccursAt(haystack, i, needle)
    ensures i + |needle| <= |haystack| && haystack[i..i + |needle|] == needle
  {
  }

  lemma ThreeSlices(s: Bytes, i: nat, j: nat, k: nat, l: nat)
    requires i <= j <= k <= l <= |s|
    ensures s[i..] == s[i..j] + (s[j..k] + (s[k..l] + s[l..]))
  {
    TwoSlices(s, i, j, |s|);
    TwoSlices(s, j, k, |s|);
    TwoSlices(s, k, l, |s|);
  }

  lemma RegroupSection(boundary: Bytes, section: Section, rest: Bytes)
    ensures Marker(boundary) + (CRLF + ((section.block + BLANK_LINE + section.content + CRLF) + rest)) ==
            RenderSection(boundary, section) + rest
  {
    hide Marker;
  }

  /** What the parser accepts is a rendered list of well-delimited sections, and the parts are what they mean. */
  lemma {:induction false} ParseReadsGrammar(body: Bytes, boundary: Bytes, cursor: nat)
    returns (sections: seq<Section>, tail: Bytes)
    requires OccursAt(body, cursor, Marker(boundary)) && ParseFrom(body, boundary, cursor).Ok?
    ensures ProperTail(tail) && body[cursor..] == Render(boundary, sections, tail)
    ensures AllMean(boundary, sections, cursor, ParseFrom(body, boundary, cursor).value)
    decreases |body| - cursor
  {
    hide HeadingOf, PartOf, FindFrom, ParsePart, ParseEnd, WellDelimited, OccursAt, Marker, RenderSection, ProperTail;
    var at := cursor + |Marker(boundary)|;
    if OccursAt(body, at, DASHES) {
      sections := [];
      tail := EndIsRendered(body, boundary, cursor);
    } else {
      OccursWithin(body, at, CRLF);
      var section := PartIsSection(body, boundary, at + 2);
      var end := ParsePart(body, boundary, at + 2).value.1;
      SectionIsRendered(body, boundary, cursor, section, end + 2);
      var rest;
      rest, tail := ParseReadsGrammar(body, boundary, end + 2);
      sections := [section] + rest;
      assert sections[1..] == rest;
      var part := ParsePart(body, boundary, at + 2).value.0;
      assert ParseFrom(body, boundary, cursor).value == [part] + ParseFrom(body, boundary, end + 2).value;
    }
  }

  lemma PartFromPieces(body: Bytes, boundary: Bytes, cursor: nat, blank: nat, end: nat, part: Part)
    requires FindFrom(body, cursor, BLANK_LINE) == Some(blank)
    requires FindFrom(body, blank + 4, Delimiter(boundary)) == Some(end)
    requires cursor <= blank <= |body| && blank + 4 <= end <= |body|
    requires HeadingOf(body[cursor..blank]).Ok?
    requires PartOf(HeadingOf(body[cursor..blank]).value, body[blank + 4..end], blank + 4) == Ok(part)
    ensures ParsePart(body, boundary, cursor) == Ok((part, end))
  {
    hide FindFrom, HeadingOf, PartOf, Delimiter;
  }

  lemma BlockRegroups(head: Bytes, block: Bytes, content: Bytes, delimiter: Bytes, tail: Bytes)
    ensures head + block + BLANK_LINE + content + delimiter + tail ==
            head + block + BLANK_LINE + (content + delimiter + tail)
  {
  }

  /** A well-delimited section, wherever it stands, is read back. */
  lemma SectionIsReadAfter(head: Bytes, boundary: Bytes, section: Section, tail: Bytes, part: Part)
    requires WellDelimited(boundary, section) && HeadingOf(section.block).Ok?
    requires PartOf(HeadingOf(section.block).value, section.content, |head| + |section.block| + 4) == Ok(part)
    ensures var body := head + section.block + BLANK_LINE + section.content + Delimiter(boundary) + tail;
            ParsePart(body, boundary, |head|) == Ok((part, |head| + |section.block| + 4 + |section.content|))
  {
    hide FindFrom, HeadingOf, PartOf, Delimiter, ParsePart;
    var block, content, delimiter := section.block, section.content, Delimiter(boundary);
    var body := head + block + BLANK_LINE + content + delimiter + tail;
    DelimiterIsNotEmpty(boundary);
    BlockRegroups(head, block, content, delimiter, tail);
    FoundBetween(head, block, BLANK_LINE, content + delimiter + tail);
    FoundBetween(head + block + BLANK_LINE, content, delimiter, tail);
    PartFromPieces(body, boundary, |head|, |head| + |block|, |head| + |block| + 4 + |content|, part);
  }

  lemma MarkerCompletesDelimiter(before: Bytes, boundary: Bytes, section: Section, rest: Bytes) returns (tail: Bytes)
    requires |rest| >= |Marker(boundary)| && rest[..|Marker(boundary)|] == Marker(boundary)
    ensures before + RenderSection(boundary, section) + rest ==
            (before + Marker(boundary) + CRLF) + section.block + BLANK_LINE + section.content +
            Delimiter(boundary) + tail
  {
    tail := rest[|Marker(boundary)|..];
    assert rest == Marker(boundary) + tail;
    assert Delimiter(boundary) == CRLF + Marker(boundary);
  }

  lemma {:induction false} SectionIsRead(before: Bytes, boundary: Bytes, section: Section, rest: Bytes, part: Part)
    requires Means(boundary, section, |before|, part)
    requires |rest| >= |Marker(boundary)| && rest[..|Marker(boundary)|] == Marker(boundary)
    ensures var body := before + RenderSection(boundary, section) + rest;
            ParsePart(body, boundary, |before| + |Marker(boundary)| + 2) ==
            Ok((part, SectionEnd(boundary, section, |before|) - 2))
  {
    hide ParsePart, HeadingOf, PartOf, WellDelimited, Marker, Delimiter, RenderSection;
    var tail := MarkerCompletesDelimiter(before, boundary, section, rest);
    SectionIsReadAfter(before + Marker(boundary) + CRLF, boundary, section, tail, part);
  }

  lemma RenderUnfolds(boundary: Bytes, sections: seq<Section>, tail: Bytes) returns (rest: Bytes)
    ensures Render(boundary, sections, tail) == Marker(boundary) + (if sections == [] then DASHES else CRLF) + rest
    ensures sections == [] ==> rest == tail
  {
    if sections == [] {
      rest := tail;
    } else {
      var section := sections[0];
      rest := section.block + BLANK_LINE + section.content + CRLF + Render(boundary, sections[1..], tail);
      hide Render, Marker;
      RegroupSection(boundary, section, Render(boundary, sections[1..], tail));
      assert Marker(boundary) + (CRLF + rest) == Marker(boundary) + CRLF + rest;
    }
  }

  /** What stands at the start of a rendered body: the marker, and either the closing dashes or a line break. */
  lemma RenderHead(before: Bytes, boundary: Bytes, sections: seq<Section>, tail: Bytes)
    ensures var body := before + Render(boundary, sections, tail);
            var at := |before| + |Marker(boundary)|;
            && at + 2 <= |body| && body[|before|..at] == Marker(boundary)
            && OccursAt(body, |before|, Marker(boundary))
            && OccursAt(body, at, if sections == [] then DASHES else CRLF)
            && (sections == [] ==> body[at + 2..] == tail)
  {
    var rest := RenderUnfolds(boundary, sections, tail);
    hide Render, Marker;
    var next := if sections == [] then DASHES else CRLF;
    assert before + (Marker(boundary) + next + rest) == before + Marker(boundary) + next + rest;
    Regroup(before, Marker(boundary), next, rest);
    MiddleSlice(before, Marker(boundary), next + rest);
    MiddleSlice(before + Marker(boundary), next, rest);
  }

  lemma RenderSectionLength(boundary: Bytes, section: Section)
    ensures |RenderSection(boundary, section)| == |Marker(boundary)| + 2 + |section.block| + 4 + |section.content| + 2
  {
  }

  lemma RenderStep(before: Bytes, boundary: Bytes, sections: seq<Section>, tail: Bytes)
    requires sections != []
    ensures before + Render(boundary, sections, tail) ==
            before + RenderSection(boundary, sections[0]) + Render(boundary, sections[1..], tail)
    ensures |before + RenderSection(boundary, sections[0])| == SectionEnd(boundary, sections[0], |before|) >= 2
  {
    RenderSectionLength(boundary, sections[0]);
    hide RenderSection, Marker;
  }

  lemma TailIsParsed(body: Bytes, end: nat, tail: Bytes)
    requires ProperTail(tail) && end <= |body| && body[end..] == tail
    ensures ParseEnd(body, end) == Ok([])
  {
    assert tail == CRLF ==> body[end..end + 2] == CRLF;
  }

  lemma ParseEnds(body: Bytes, boundary: Bytes, cursor: nat)
    requires OccursAt(body, cursor + |Marker(boundary)|, DASHES)
    ensures ParseFrom(body, boundary, cursor) == ParseEnd(body, cursor + |Marker(boundary)| + 2)
  {
  }

  lemma ParseGoesOn(body: Bytes, boundary: Bytes, cursor: nat, part: Part, end: nat)
    requires OccursAt(body, cursor + |Marker(boundary)|, CRLF)
    requires ParsePart(body, boundary, cursor + |Marker(boundary)| + 2) == Ok((part, end))
    requires OccursAt(body, end + 2, Marker(boundary)) && ParseFrom(body, boundary, end + 2).Ok?
    ensures ParseFrom(body, boundary, cursor) == Ok([part] + ParseFrom(body, boundary, end + 2).value)
  {
    hide ParsePart, Marker;
    assert CRLF != DASHES;
  }

  /** Conversely, every rendered list of well-delimited sections that mean these parts is parsed to them. */
  lemma {:induction false} GrammarIsParsed(
    before: Bytes, boundary: Bytes, sections: seq<Section>, tail: Bytes, parts: seq<Part>)
    requires ProperTail(tail) && AllMean(boundary, sections, |before|, parts)
    ensures var body := before + Render(boundary, sections, tail);
            OccursAt(body, |before|, Marker(boundary)) && ParseFrom(body, boundary, |before|) == Ok(parts)
    decreases |sections|
  {
    hide Means, FindFrom, ParsePart, ParseFrom, Marker, RenderSection, Render, SectionEnd, ParseEnd, ProperTail;
    hide OccursAt;
    var body := before + Render(boundary, sections, tail);
    RenderHead(before, boundary, sections, tail);
    if sections == [] {
      TailIsParsed(body, |before| + |Marker(boundary)| + 2, tail);
      ParseEnds(body, boundary, |before|);
    } else {
      var next := before + RenderSection(boundary, sections[0]);
      RenderStep(before, boundary, sections, tail);
      GrammarIsParsed(next, boundary, sections[1..], tail, parts[1..]);
      SectionThenRest(before, boundary, sections, tail, parts[0]);
      ParseGoesOn(body, boundary, |before|, parts[0], |next| - 2);
      assert parts == [parts[0]] + parts[1..];
    }
  }

  lemma SectionThenRest(before: Bytes, boundary: Bytes, sections: seq<Section>, tail: Bytes, part: Part)
    requires sections != [] && Means(boundary, sections[0], |before|, part)
    ensures ParsePart(before + Render(boundary, sections, tail), boundary, |before| + |Marker(boundary)| + 2) ==
            Ok((part, |before + RenderSection(boundary, sections[0])| - 2))
  {
    hide Means, ParsePart, Marker, RenderSection, Render, SectionEnd, OccursAt;
    var rest := Render(boundary, sections[1..], tail);
    RenderStep(before, boundary, sections, tail);
    RenderBegins(boundary, sections[1..], tail);
    SectionIsRead(before, boundary, sections[0], rest, part);
  }

  lemma RenderBegins(boundary: Bytes, sections: seq<Section>, tail: Bytes)
    ensures var rest := Render(boundary, sections, tail);
            |rest| >= |Marker(boundary)| && rest[..|Marker(boundary)|] == Marker(boundary)
  {
    hide Render, Marker;
    RenderHead([], boundary, sections, tail);
    assert [] + Render(boundary, sections, tail) == Render(boundary, sections, tail);
  }

  // ---------------------------------------------------------------------------------------------
  // What the grammar says about a parsed body
  // ---------------------------------------------------------------------------------------------

  ghost predicate InGrammar(body: Bytes, boundary: Bytes, form: Form) {
    exists sections, tail, parts ::
      body == Render(boundary, sections, tail) && ProperTail(tail) && AllMean(boundary, sections, 0, parts)
      && form == Collect(parts)
  }

  /** The parser accepts exactly the grammar, and returns what the sections mean. */
  lemma ParseIsTheGrammar(body: Bytes, boundary: Bytes, form: Form)
    ensures Parse(body, boundary) == Ok(form) <==> InGrammar(body, boundary, form)
  {
    hide ParseFrom, Collect, Render, AllMean, ProperTail, OccursAt;
    if Parse(body, boundary) == Ok(form) {
      var sections, tail := ParseReadsGrammar(body, boundary, 0);
      var parts := ParseFrom(body, boundary, 0).value;
      assert body[0..] == body && [] + parts == parts;
      assert AllMean(boundary, sections, 0, parts);
    }
    if InGrammar(body, boundary, form) {
      var sections, tail, parts :|
        body == Render(boundary, sections, tail) && ProperTail(tail) && AllMean(boundary, sections, 0, parts)
        && form == Collect(parts);
      GrammarIsParsed([], boundary, sections, tail, parts);
      assert [] + body == body && [] + parts == parts;
    }
  }

  lemma ParseNeverLosesAlignment(body: Bytes, boundary: Bytes)
    ensures Parse(body, boundary) != Err(LostAlignment)
  {
    NeverLosesAlignment(body, boundary, 0);
    hide ParseFrom;
  }

  /** The file's bytes lie in the body, hold no delimiter, and a delimiter follows them. */
  ghost predicate IsSlice(body: Bytes, boundary: Bytes, file: File) {
    && OccursAt(body, file.start + file.length, Delimiter(boundary))
    && forall i :: file.start <= i < file.start + file.length ==> !OccursAt(body, i, Delimiter(boundary))
  }

  /** Every file among the parts is such a slice, behind `cursor`, and behind the files before it. */
  ghost predicate FilesInOrder(body: Bytes, boundary: Bytes, cursor: nat, parts: seq<Part>) {
    && (forall i :: 0 <= i < |parts| && parts[i].FilePart? ==>
          cursor < parts[i].file.start && IsSlice(body, boundary, parts[i].file))
    && (forall i, j :: 0 <= i < j < |parts| && parts[i].FilePart? && parts[j].FilePart? ==>
          parts[i].file.start + parts[i].file.length < parts[j].file.start)
  }

  lemma {:induction false} ParsedFilesInOrder(body: Bytes, boundary: Bytes, cursor: nat)
    requires ParseFrom(body, boundary, cursor).Ok?
    ensures FilesInOrder(body, boundary, cursor, ParseFrom(body, boundary, cursor).value)
    decreases |body| - cursor
  {
    hide ParsePart, OccursAt, Delimiter, HeadingOf, FindFrom;
    var at := cursor + |Marker(boundary)|;
    if !OccursAt(body, at, DASHES) {
      OccursWithin(body, at, CRLF);
      var (part, end) := ParsePart(body, boundary, at + 2).value;
      ParsedFilesInOrder(body, boundary, end + 2);
      var blank, _ := PartPieces(body, boundary, at + 2);
      DelimiterIsNotEmpty(boundary);
      FindIsLeast(body, blank + 4, Delimiter(boundary));
      assert part.FilePart? ==> part.file.start == blank + 4 && part.file.length == end - (blank + 4);
    }
  }

  lemma {:induction false} CollectKeepsOrder(body: Bytes, boundary: Bytes, cursor: nat, parts: seq<Part>)
    requires FilesInOrder(body, boundary, cursor, parts)
    ensures var files := Collect(parts).files;
            && (forall file :: file in files ==> FilePart(file) in parts)
            && (forall i, j :: 0 <= i < j < |files| ==> files[i].start + files[i].length < files[j].start)
  {
    hide IsSlice;
    if parts != [] {
      var front, last := parts[..|parts| - 1], parts[|parts| - 1];
      CollectKeepsOrder(body, boundary, cursor, front);
      if last.FilePart? {
        forall file | file in Collect(front).files
          ensures file.start + file.length < last.file.start
        {
          var i :| 0 <= i < |front| && front[i] == FilePart(file);
          assert parts[i] == FilePart(file);
        }
      }
    }
  }

  /** The files of an accepted body are slices of it, disjoint and in order, each ended by the delimiter it lacks. */
  lemma FilesAreDisjointSlices(body: Bytes, boundary: Bytes)
    requires Parse(body, boundary).Ok?
    ensures var files := Parse(body, boundary).value.files;
            && (forall file :: file in files ==> IsSlice(body, boundary, file))
            && (forall i, j :: 0 <= i < j < |files| ==> files[i].start + files[i].length < files[j].start)
  {
    hide IsSlice, Collect, ParseFrom, OccursAt;
    ParsedFilesInOrder(body, boundary, 0);
    var parts := ParseFrom(body, boundary, 0).value;
    CollectNothing(ParseFrom(body, boundary, 0));
    CollectKeepsOrder(body, boundary, 0, parts);
  }

  // ---------------------------------------------------------------------------------------------
  // What a client writes
  // ---------------------------------------------------------------------------------------------

  const SPACE: byte := 32

  /** A parameter with a value, in quotes or as it stands; or a word without `=`. */
  datatype Parameter =
    | Parameter(key: Bytes, value: Bytes, quoted: bool)
    | Word(text: Bytes)

  datatype Header = Header(name: Bytes, value: Bytes)

  /** A field or file as a client sends it: a kind and parameters, other headers around them, and the content. */
  datatype Item = Item(
    before: seq<Header>, kind: Bytes, parameters: seq<Parameter>, after: seq<Header>, content: Bytes)

  const DISPOSITION_LINE: Bytes := Ascii("Content-Disposition")

  function Quoted(value: Bytes): Bytes {
    [QUOTE] + value + [QUOTE]
  }

  function ValueText(p: Parameter): Bytes
    requires p.Parameter?
  {
    if p.quoted then Quoted(p.value) else p.value
  }

  function ParameterText(p: Parameter): Bytes {
    match p
    case Parameter(key, value, quoted) => key + [EQUALS] + ValueText(p)
    case Word(text) => text
  }

  /** Each parameter behind a semicolon and a space. */
  function ParametersText(parameters: seq<Parameter>): Bytes {
    if parameters == [] then []
    else [SEMICOLON] + ([SPACE] + ParameterText(parameters[0])) + ParametersText(parameters[1..])
  }

  function DispositionText(kind: Bytes, parameters: seq<Parameter>): Bytes {
    kind + ParametersText(parameters)
  }

  function HeaderLine(h: Header): Bytes {
    h.name + [COLON] + ([SPACE] + h.value)
  }

  /** One line for each header, with a line break between two. */
  function LinesText(headers: seq<Header>): Bytes {
    if headers == [] then []
    else if |headers| == 1 then HeaderLine(headers[0])
    else HeaderLine(headers[0]) + CRLF + LinesText(headers[1..])
  }

  function HeadersOfItem(item: Item): seq<Header> {
    item.before + [Header(DISPOSITION_LINE, DispositionText(item.kind, item.parameters))] + item.after
  }

  function SectionOf(item: Item): Section {
    Section(LinesText(HeadersOfItem(item)), item.content)
  }

  // --- what it means ---

  /** The value of the last `name` parameter. */
  function NameOf(parameters: seq<Parameter>): Option<Bytes> {
    if parameters == [] then None
    else
      var last := parameters[|parameters| - 1];
      if last.Parameter? && EqualsIgnoringCase(last.key, Ascii("name")) then Some(last.value)
      else NameOf(parameters[..|parameters| - 1])
  }

  /** The value of the last `filename` or `filename*` parameter. */
  function FilenameOf(parameters: seq<Parameter>): Option<Bytes> {
    if parameters == [] then None
    else
      var last := parameters[|parameters| - 1];
      if last.Parameter? && (EqualsIgnoringCase(last.key, Ascii("filename"))
                             || EqualsIgnoringCase(last.key, Ascii("filename*"))) then Some(last.value)
      else FilenameOf(parameters[..|parameters| - 1])
  }

  /** The value, trimmed, of the last header with this name, in any case. */
  function HeaderNamed(headers: seq<Header>, name: Bytes): Option<Bytes> {
    if headers == [] then None
    else
      var last := headers[|headers| - 1];
      if Lower(Trim(last.name)) == name then Some(Trim(last.value)) else HeaderNamed(headers[..|headers| - 1], name)
  }

  // --- what can be written ---

  /** Text on one line. */
  predicate OneLine(s: Bytes) {
    ValidUtf8(s) && CR !in s
  }

  predicate InQuotes(s: Bytes) {
    |s| >= 2 && s[0] == QUOTE && s[|s| - 1] == QUOTE
  }

  /** Nothing is escaped, so a value must avoid `;`; without quotes it must also be trimmed and not look quoted. */
  predicate Writable(p: Parameter) {
    match p
    case Parameter(key, value, quoted) =>
      && OneLine(key) && Trimmed(key) && SEMICOLON !in key && EQUALS !in key
      && OneLine(value) && SEMICOLON !in value
      && (!quoted ==> Trimmed(value) && !InQuotes(value))
    case Word(text) =>
      OneLine(text) && Trimmed(text) && text != [] && SEMICOLON !in text && EQUALS !in text
  }

  predicate WritableHeader(h: Header) {
    OneLine(h.name) && OneLine(h.value) && COLON !in h.name
  }

  predicate Free(needle: Bytes, s: Bytes) {
    forall i :: 0 <= i <= |s| ==> !OccursAt(s, i, needle)
  }

  /** An item that can be sent with this boundary. */
  predicate Sendable(boundary: Bytes, item: Item) {
    && (forall i :: 0 <= i < |item.before| ==> WritableHeader(item.before[i]))
    && (forall i :: 0 <= i < |item.after| ==> WritableHeader(item.after[i]))
    && HeaderNamed(item.after, CONTENT_DISPOSITION).None?
    && EqualsIgnoringCase(item.kind, FORM_DATA)
    && (forall i :: 0 <= i < |item.parameters| ==> Writable(item.parameters[i]))
    && NameOf(item.parameters).Some?
    && Free(Delimiter(boundary), item.content)
    && (FilenameOf(item.parameters).None? ==> ValidUtf8(item.content))
  }

  // ---------------------------------------------------------------------------------------------
  // Reading parameters
  // ---------------------------------------------------------------------------------------------

  /** An ASCII byte next to text shows what white space the text ends with, and what it starts with. */
  lemma SpaceStopsAtAscii(a: Bytes, b: byte, c: Bytes)
    requires b < 0x80
    ensures a != [] ==> SpaceAtStart(a + [b] + c) == SpaceAtStart(a)
    ensures c != [] ==> SpaceAtEnd(a + [b] + c) == SpaceAtEnd(c)
    ensures a == [] && !AsciiSpace(b) ==> SpaceAtStart(a + [b] + c) == 0
    ensures c == [] && !AsciiSpace(b) ==> SpaceAtEnd(a + [b] + c) == 0
  {
    SpaceBeforeAscii(a, b, c);
    SpaceBehindAscii(a, b, c);
  }

  lemma SpaceBeforeAscii(a: Bytes, b: byte, c: Bytes)
    requires b < 0x80
    ensures a != [] ==> SpaceAtStart(a + [b] + c) == SpaceAtStart(a)
    ensures a == [] && !AsciiSpace(b) ==> SpaceAtStart(a + [b] + c) == 0
  {
    var s := a + [b] + c;
    assert s[|a|] == b && forall i :: 0 <= i < |a| ==> s[i] == a[i];
  }

  lemma SpaceBehindLong(front: Bytes, c: Bytes)
    requires |c| >= 3
    ensures SpaceAtEnd(front + c) == SpaceAtEnd(c)
  {
    hide AsciiSpace, LatinSpace, WideSpace;
    var s := front + c;
    assert s[|s| - 1] == c[|c| - 1] && s[|s| - 2] == c[|c| - 2] && s[|s| - 3] == c[|c| - 3];
  }

  lemma SpaceBehindAscii(a: Bytes, b: byte, c: Bytes)
    requires b < 0x80
    ensures c != [] ==> SpaceAtEnd(a + [b] + c) == SpaceAtEnd(c)
    ensures c == [] && !AsciiSpace(b) ==> SpaceAtEnd(a + [b] + c) == 0
  {
    var s := a + [b] + c;
    var k := |s|;
    if |c| >= 3 {
      SpaceBehindLong(a + [b], c);
    } else {
      assert s[|a|] == b;
      assert |c| >= 1 ==> s[k - 1] == c[|c| - 1];
      assert |c| >= 2 ==> s[k - 2] == c[|c| - 2];
    }
  }

  lemma ValueTextIsRead(p: Parameter)
    requires p.Parameter? && Writable(p)
    ensures Trim(ValueText(p)) == ValueText(p) && Unquoted(ValueText(p)) == p.value
    ensures ValueText(p) == [] || SpaceAtEnd(ValueText(p)) == 0
  {
    if p.quoted {
      TrimmedByEnds(Quoted(p.value));
      TrimOfTrimmed(Quoted(p.value));
    } else {
      TrimOfTrimmed(p.value);
    }
  }

  /** The space in front is all that trimming removes from a parameter. */
  lemma ParameterIsTrimmed(p: Parameter)
    requires Writable(p)
    ensures Trim([SPACE] + ParameterText(p)) == ParameterText(p)
    ensures ParameterText(p) != [] && SpaceAtEnd(ParameterText(p)) == 0
  {
    if p.Parameter? {
      ValueTextIsRead(p);
      hide Writable, Trim;
      SpaceStopsAtAscii(p.key, EQUALS, ValueText(p));
      assert Trimmed(p.key) by { KeyIsTrimmed(p); }
      hide SpaceAtStart, SpaceAtEnd, ValueText;
    }
    TrimDropsLeadingSpace(ParameterText(p));
    TrimOfTrimmed(ParameterText(p));
    hide Trim;
  }

  lemma KeyIsTrimmed(p: Parameter)
    requires p.Parameter? && Writable(p)
    ensures Trimmed(p.key) && Trim(p.key) == p.key && EQUALS !in p.key
  {
    TrimOfTrimmed(p.key);
  }

  /** A parameter adds its value, without its quotes if it has them, to what it names, whatever else was there. */
  lemma ParameterIsRead(p: Parameter, before: (Option<Bytes>, Option<Bytes>))
    requires Writable(p)
    ensures WithParameter(before, [SPACE] + ParameterText(p)) ==
            if p.Word? then before
            else if EqualsIgnoringCase(p.key, NAME) then (Some(p.value), before.1)
            else if EqualsIgnoringCase(p.key, FILENAME) || EqualsIgnoringCase(p.key, EXTENDED_FILENAME)
            then (before.0, Some(p.value))
            else before
  {
    ParameterIsTrimmed(p);
    if p.Word? {
      SplitOnceIff(p.text, EQUALS);
      hide Trim, SplitOnce;
    } else {
      ValueTextIsRead(p);
      KeyIsTrimmed(p);
      SplitOnceAt(p.key, EQUALS, ValueText(p));
      hide Trim, SplitOnce, Unquoted, EqualsIgnoringCase, ValueText, Writable;
    }
  }

  function ParameterPieces(parameters: seq<Parameter>): (pieces: seq<Bytes>)
    ensures |pieces| == |parameters|
  {
    seq(|parameters|, i requires 0 <= i < |parameters| => [SPACE] + ParameterText(parameters[i]))
  }

  lemma {:induction false} ParametersAreRead(parameters: seq<Parameter>)
    requires forall i :: 0 <= i < |parameters| ==> Writable(parameters[i])
    ensures Parameters(ParameterPieces(parameters)) == (NameOf(parameters), FilenameOf(parameters))
  {
    hide Writable, WithParameter, EqualsIgnoringCase, ParameterText;
    if parameters != [] {
      var front, last := parameters[..|parameters| - 1], parameters[|parameters| - 1];
      var pieces := ParameterPieces(parameters);
      ParametersAreRead(front);
      assert pieces[..|pieces| - 1] == ParameterPieces(front);
      ParameterIsRead(last, (NameOf(front), FilenameOf(front)));
      if last.Parameter? {
        NamesDiffer(last.key);
      }
    }
  }

  lemma NamesDiffer(key: Bytes)
    ensures EqualsIgnoringCase(key, NAME) ==>
              !EqualsIgnoringCase(key, FILENAME) && !EqualsIgnoringCase(key, EXTENDED_FILENAME)
  {
    assert |Lower(key)| == |key| && |Lower(NAME)| == 4 && |Lower(FILENAME)| == 8 && |Lower(EXTENDED_FILENAME)| == 9;
  }

  lemma {:induction false} PiecesOfText(first: Bytes, parameters: seq<Parameter>)
    requires SEMICOLON !in first && forall i :: 0 <= i < |parameters| ==> Writable(parameters[i])
    ensures Split(first + ParametersText(parameters), SEMICOLON) == [first] + ParameterPieces(parameters)
    decreases |parameters|
  {
    if parameters == [] {
      SplitWhole(first, SEMICOLON);
      assert first + [] == first;
    } else {
      var next, rest := [SPACE] + ParameterText(parameters[0]), parameters[1..];
      NoSemicolon(parameters[0]);
      PiecesUnfold(parameters);
      hide Writable, Split, ParameterText, ParameterPieces;
      PiecesOfText(next, rest);
      SplitFirst(first, SEMICOLON, next + ParametersText(rest));
      TextBehindSemicolon(first, next, ParametersText(rest));
    }
  }

  lemma PiecesUnfold(parameters: seq<Parameter>)
    requires parameters != []
    ensures ParameterPieces(parameters) == [[SPACE] + ParameterText(parameters[0])] + ParameterPieces(parameters[1..])
  {
    hide ParameterText;
  }

  lemma TextBehindSemicolon(first: Bytes, next: Bytes, rest: Bytes)
    ensures first + ([SEMICOLON] + next + rest) == first + [SEMICOLON] + (next + rest)
  {
  }

  lemma NoSemicolon(p: Parameter)
    requires Writable(p)
    ensures SEMICOLON !in [SPACE] + ParameterText(p)
  {
  }

  lemma KindIsClean(kind: Bytes)
    requires EqualsIgnoringCase(kind, FORM_DATA)
    ensures |kind| == 9 && SEMICOLON !in kind && OneLine(kind) && Trimmed(kind)
  {
    assert |Lower(kind)| == |kind| && |Lower(FORM_DATA)| == 9;
    forall i | 0 <= i < 9
      ensures 45 <= kind[i] < 0x80 && kind[i] != SEMICOLON
    {
      assert LowerByte(kind[i]) == LowerByte(FORM_DATA[i]);
      assert FORM_DATA[i] == 45 || 97 <= FORM_DATA[i] <= 122;
    }
    AsciiIsValid(kind);
    TrimmedByEnds(kind);
    hide ValidUtf8, Lower;
  }

  /**
   * A disposition is read as it was written: the last `name` and the last `filename` or `filename*` count, in any case,
   * with or without quotes, whatever other parameters and words stand between them; without a name it is an error.
   */
  lemma DispositionIsRead(kind: Bytes, parameters: seq<Parameter>)
    requires EqualsIgnoringCase(kind, FORM_DATA)
    requires forall i :: 0 <= i < |parameters| ==> Writable(parameters[i])
    ensures ContentDisposition(DispositionText(kind, parameters)) ==
            if NameOf(parameters).None? then Err(NoFieldName)
            else Ok(Disposition(NameOf(parameters).value, FilenameOf(parameters)))
  {
    KindIsClean(kind);
    TrimOfTrimmed(kind);
    PiecesOfText(kind, parameters);
    ParametersAreRead(parameters);
    hide Trim, Split, Parameters, Writable, EqualsIgnoringCase, ParametersText, ParameterPieces;
    assert ([kind] + ParameterPieces(parameters))[1..] == ParameterPieces(parameters);
  }

  /** Any other kind is refused, whatever its parameters. */
  lemma OtherKindsAreRefused(kind: Bytes, parameters: seq<Parameter>)
    requires SEMICOLON !in kind && !EqualsIgnoringCase(Trim(kind), FORM_DATA)
    requires forall i :: 0 <= i < |parameters| ==> Writable(parameters[i])
    ensures ContentDisposition(DispositionText(kind, parameters)) == Err(NotFormData)
  {
    PiecesOfText(kind, parameters);
    hide Trim, Split, Parameters, Writable, EqualsIgnoringCase, ParametersText, ParameterPieces;
  }

  /** A disposition ends as its last parameter does, so the line around it keeps it as it is. */
  lemma {:induction false} ParametersTextIsTrimmed(parameters: seq<Parameter>)
    requires parameters != [] && forall i :: 0 <= i < |parameters| ==> Writable(parameters[i])
    ensures ParametersText(parameters) != [] && SpaceAtEnd(ParametersText(parameters)) == 0
    ensures ParametersText(parameters)[0] == SEMICOLON
    decreases |parameters|
  {
    var text, rest := ParameterText(parameters[0]), parameters[1..];
    ParameterIsTrimmed(parameters[0]);
    hide Writable, ParameterText, SpaceAtEnd, Trim;
    if rest == [] {
      SpaceStopsAtAscii([SEMICOLON], SPACE, text);
      assert [SEMICOLON] + ([SPACE] + text) + [] == [SEMICOLON] + [SPACE] + text;
    } else {
      ParametersTextIsTrimmed(rest);
      var tail := ParametersText(rest);
      var front := [SEMICOLON] + ([SPACE] + text);
      LastOfTwo(front, tail);
    }
  }

  lemma LastOfTwo(front: Bytes, tail: Bytes)
    requires tail != [] && tail[0] == SEMICOLON
    ensures SpaceAtEnd(front + tail) == SpaceAtEnd(tail)
  {
    var rest := tail[1..];
    assert tail == [] + [SEMICOLON] + rest && front + tail == front + [SEMICOLON] + rest;
    SpaceStopsAtAscii(front, SEMICOLON, rest);
    SpaceStopsAtAscii([], SEMICOLON, rest);
    hide SpaceAtEnd;
  }

  lemma DispositionIsTrimmed(kind: Bytes, parameters: seq<Parameter>)
    requires EqualsIgnoringCase(kind, FORM_DATA) && parameters != []
    requires forall i :: 0 <= i < |parameters| ==> Writable(parameters[i])
    ensures Trim(DispositionText(kind, parameters)) == DispositionText(kind, parameters)
  {
    KindIsClean(kind);
    ParametersTextIsTrimmed(parameters);
    assert kind != [] && SpaceAtStart(kind) == 0;
    hide SpaceAtStart, SpaceAtEnd, EqualsIgnoringCase, Writable, ParametersText, OneLine, Trim;
    var tail := ParametersText(parameters);
    LastOfTwo(kind, tail);
    FirstOfTwo(kind, tail);
    TrimOfTrimmed(kind + tail);
  }

  lemma FirstOfTwo(front: Bytes, tail: Bytes)
    requires front != [] && tail != [] && tail[0] == SEMICOLON
    ensures SpaceAtStart(front + tail) == SpaceAtStart(front)
  {
    SpaceStopsAtAscii(front, SEMICOLON, tail[1..]);
    assert front + [SEMICOLON] + tail[1..] == front + tail;
    hide SpaceAtStart;
  }

  // ---------------------------------------------------------------------------------------------
  // What is refused
  // ---------------------------------------------------------------------------------------------

  function JoinedLines(lines: seq<Bytes>): Bytes {
    if lines == [] then [] else if |lines| == 1 then lines[0] else lines[0] + CRLF + JoinedLines(lines[1..])
  }

  predicate NoLineBreak(line: Bytes) {
    forall k :: 0 <= k < |line| - 1 && line[k] == CR ==> line[k + 1] != LF
  }

  /** The lines of a text, joined again, are the text, and no line has a line break in it. */
  lemma {:induction false} LinesAreTheText(s: Bytes)
    ensures JoinedLines(SplitLines(s)) == s
    ensures forall i :: 0 <= i < |SplitLines(s)| ==> NoLineBreak(SplitLines(s)[i])
    decreases |s|
  {
    if s == [] {
    } else if |s| >= 2 && s[..2] == CRLF {
      var rest := SplitLines(s[2..]);
      LinesAreTheText(s[2..]);
      hide NoLineBreak, SplitLines;
      assert ([[]] + rest)[1..] == rest;
      assert s == CRLF + s[2..] && [] + CRLF == CRLF;
      EmptyLineHasNoBreak([]);
    } else {
      var rest := SplitLines(s[1..]);
      LinesAreTheText(s[1..]);
      LongerFirstLine(s[0], rest);
      FirstLineHasNoBreak(s, rest);
      hide NoLineBreak, JoinedLines;
      assert s == [s[0]] + s[1..];
    }
  }

  lemma EmptyLineHasNoBreak(line: Bytes)
    requires line == []
    ensures NoLineBreak(line)
  {
  }

  lemma LongerFirstLine(b: byte, lines: seq<Bytes>)
    requires lines != []
    ensures JoinedLines([[b] + lines[0]] + lines[1..]) == [b] + JoinedLines(lines)
  {
    var longer := [[b] + lines[0]] + lines[1..];
    assert longer[1..] == lines[1..];
    assert [b] + lines[0] + CRLF + JoinedLines(lines[1..]) == [b] + (lines[0] + CRLF + JoinedLines(lines[1..]));
  }

  lemma FirstLineHasNoBreak(s: Bytes, lines: seq<Bytes>)
    requires s != [] && lines != [] && JoinedLines(lines) == s[1..] && NoLineBreak(lines[0])
    requires !(|s| >= 2 && s[..2] == CRLF)
    ensures NoLineBreak([s[0]] + lines[0])
  {
    var line := [s[0]] + lines[0];
    assert lines[0] <= s[1..];
    assert |line| >= 2 ==> line[1] == s[1];
    assert s[0] == CR && |s| >= 2 ==> s[1] != LF by { assert |s| >= 2 ==> s[..2] == [s[0], s[1]]; }
    hide JoinedLines;
    forall k | 0 <= k < |line| - 1 && line[k] == CR
      ensures line[k + 1] != LF
    {
      if k > 0 {
        assert line[k] == lines[0][k - 1] && line[k + 1] == lines[0][k];
      }
    }
  }

  predicate BadLine(line: Bytes) {
    line != [] && COLON !in line
  }

  lemma {:induction false} LinesAreRefusedIff(lines: seq<Bytes>)
    ensures HeadersOf(lines).Err? <==> exists i :: 0 <= i < |lines| && BadLine(lines[i])
    ensures HeadersOf(lines).Err? ==> HeadersOf(lines).error == BadHeaderLine
  {
    if lines != [] {
      var front, last := lines[..|lines| - 1], lines[|lines| - 1];
      LinesAreRefusedIff(front);
      SplitOnceIff(last, COLON);
      assert forall i :: 0 <= i < |front| ==> lines[i] == front[i];
      hide SplitOnce, Lower, Trim;
      if BadLine(last) {
        assert BadLine(lines[|lines| - 1]);
      }
    }
  }

  /** A header block is refused exactly if it is not text, or a line of it that is not empty has no colon. */
  lemma HeadersAreRefusedIff(block: Bytes)
    ensures PartHeaders(block) == Err(HeadersNotUtf8) <==> !ValidUtf8(block)
    ensures PartHeaders(block) == Err(BadHeaderLine) <==>
            ValidUtf8(block) && exists i :: 0 <= i < |SplitLines(block)| && BadLine(SplitLines(block)[i])
    ensures PartHeaders(block).Err? ==> PartHeaders(block).error in {HeadersNotUtf8, BadHeaderLine}
  {
    LinesAreRefusedIff(SplitLines(block));
    hide HeadersOf, SplitLines, ValidUtf8, BadLine;
    if HeadersOf(SplitLines(block)).Err? {
      assert HeadersOf(SplitLines(block)) == Err(BadHeaderLine);
    }
  }

  predicate IsText(part: Part) {
    part.FieldPart? ==> ValidUtf8(part.field.value)
  }

  lemma PartIsText(body: Bytes, boundary: Bytes, cursor: nat)
    requires cursor <= |body| && ParsePart(body, boundary, cursor).Ok?
    ensures IsText(ParsePart(body, boundary, cursor).value.0)
  {
    var blank, end := PartPieces(body, boundary, cursor);
    hide FindFrom, HeadingOf, Delimiter, ValidUtf8, ParsePart;
  }

  lemma {:induction false} PartsAreText(body: Bytes, boundary: Bytes, cursor: nat)
    requires ParseFrom(body, boundary, cursor).Ok?
    ensures var parts := ParseFrom(body, boundary, cursor).value;
            forall i :: 0 <= i < |parts| ==> IsText(parts[i])
    decreases |body| - cursor
  {
    var at := cursor + |Marker(boundary)|;
    hide ParsePart, IsText;
    if !OccursAt(body, at, DASHES) {
      PartIsText(body, boundary, at + 2);
      PartsAreText(body, boundary, ParsePart(body, boundary, at + 2).value.1 + 2);
    }
  }

  lemma {:induction false} CollectKeepsText(parts: seq<Part>)
    requires forall i :: 0 <= i < |parts| ==> IsText(parts[i])
    ensures forall i :: 0 <= i < |Collect(parts).fields| ==> ValidUtf8(Collect(parts).fields[i].value)
  {
    hide ValidUtf8;
    if parts != [] {
      CollectKeepsText(parts[..|parts| - 1]);
      assert IsText(parts[|parts| - 1]);
    }
  }

  /** Every field of an accepted form is text; a file may be any bytes. */
  lemma FieldsAreText(body: Bytes, boundary: Bytes)
    requires Parse(body, boundary).Ok?
    ensures forall field :: field in Parse(body, boundary).value.fields ==> ValidUtf8(field.value)
  {
    PartsAreText(body, boundary, 0);
    hide ParseFrom, ValidUtf8, IsText, Collect;
    var parts := ParseFrom(body, boundary, 0).value;
    CollectKeepsText(parts);
    assert [] + parts == parts;
  }

  // ---------------------------------------------------------------------------------------------
  // Reading header blocks
  // ---------------------------------------------------------------------------------------------

  lemma {:induction false} LineIsWhole(line: Bytes)
    requires CR !in line
    ensures SplitLines(line) == [line]
  {
    if line != [] {
      LineIsWhole(line[1..]);
      assert [line[0]] + line[1..] == line;
    }
  }

  lemma {:induction false} LineThenRest(line: Bytes, rest: Bytes)
    requires CR !in line
    ensures SplitLines(line + CRLF + rest) == [line] + SplitLines(rest)
  {
    var s := line + CRLF + rest;
    if line == [] {
      assert s[..2] == CRLF && s[2..] == rest;
    } else {
      LineThenRest(line[1..], rest);
      assert s[..2][0] == line[0] != CRLF[0];
      assert s[1..] == line[1..] + CRLF + rest;
      assert [line[0]] + line[1..] == line;
    }
  }

  function HeaderLines(headers: seq<Header>): (lines: seq<Bytes>)
    ensures |lines| == |headers|
  {
    seq(|headers|, i requires 0 <= i < |headers| => HeaderLine(headers[i]))
  }

  lemma HeaderLineIsClean(h: Header)
    requires WritableHeader(h)
    ensures OneLine(HeaderLine(h)) && HeaderLine(h) != []
  {
    AsciiIsValid([COLON]);
    AsciiIsValid([SPACE]);
    hide ValidUtf8;
    ValidJoin(h.name, [COLON]);
    ValidJoin([SPACE], h.value);
    ValidJoin(h.name + [COLON], [SPACE] + h.value);
  }

  lemma ValidJoin(a: Bytes, b: Bytes)
    requires ValidUtf8(a) && ValidUtf8(b)
    ensures ValidUtf8(a + b)
  {
    ValidConcat(a, b);
  }

  lemma {:induction false} LinesOfText(headers: seq<Header>)
    requires headers != [] && forall i :: 0 <= i < |headers| ==> WritableHeader(headers[i])
    ensures ValidUtf8(LinesText(headers)) && SplitLines(LinesText(headers)) == HeaderLines(headers)
  {
    hide ValidUtf8, HeaderLine, SplitLines, WritableHeader;
    var first := HeaderLine(headers[0]);
    HeaderLineIsClean(headers[0]);
    AsciiIsValid(CRLF);
    if |headers| == 1 {
      LineIsWhole(first);
      assert HeaderLines(headers) == [first];
    } else {
      var rest := LinesText(headers[1..]);
      LinesOfText(headers[1..]);
      assert HeaderLines(headers) == [first] + HeaderLines(headers[1..]);
      assert LinesText(headers) == first + CRLF + rest;
      hide LinesText, HeaderLines;
      ValidJoin(first, CRLF);
      ValidJoin(first + CRLF, rest);
      LineThenRest(first, rest);
    }
  }

  /** A header line adds its value under its name, in lower case and both trimmed. */
  lemma HeaderLineIsRead(h: Header)
    requires WritableHeader(h)
    ensures SplitOnce(HeaderLine(h), COLON) == Some((h.name, [SPACE] + h.value))
    ensures Trim([SPACE] + h.value) == Trim(h.value)
  {
    SplitOnceAt(h.name, COLON, [SPACE] + h.value);
    TrimDropsLeadingSpace(h.value);
    hide Trim, SplitOnce;
  }

  /** The map of a header block has, under each name, the last header of that name, and nothing else. */
  ghost predicate IsMapOf(m: map<Bytes, Bytes>, headers: seq<Header>) {
    forall name :: (if name in m then Some(m[name]) else None) == HeaderNamed(headers, name)
  }

  lemma {:induction false} LinesAreRead(headers: seq<Header>)
    requires forall i :: 0 <= i < |headers| ==> WritableHeader(headers[i])
    ensures HeadersOf(HeaderLines(headers)).Ok? && IsMapOf(HeadersOf(HeaderLines(headers)).value, headers)
  {
    if headers != [] {
      var front, last := headers[..|headers| - 1], headers[|headers| - 1];
      var lines := HeaderLines(headers);
      LinesAreRead(front);
      HeaderLineIsClean(last);
      HeaderLineIsRead(last);
      hide Trim, SplitOnce, HeaderLine, WritableHeader, ValidUtf8, Lower;
      assert lines[..|lines| - 1] == HeaderLines(front) && lines[|lines| - 1] == HeaderLine(last);
    }
  }

  lemma HeadersAreRead(headers: seq<Header>)
    requires headers != [] && forall i :: 0 <= i < |headers| ==> WritableHeader(headers[i])
    ensures PartHeaders(LinesText(headers)).Ok? && IsMapOf(PartHeaders(LinesText(headers)).value, headers)
  {
    LinesOfText(headers);
    LinesAreRead(headers);
    hide HeadersOf, LinesText, HeaderLines, ValidUtf8, SplitLines, IsMapOf;
  }

  lemma {:induction false} HeaderNamedConcat(a: seq<Header>, b: seq<Header>, name: Bytes)
    ensures HeaderNamed(a + b, name) ==
            if HeaderNamed(b, name).Some? then HeaderNamed(b, name) else HeaderNamed(a, name)
  {
    hide Trim, Lower;
    if b == [] {
      assert a + b == a;
    } else {
      HeaderNamedConcat(a, b[..|b| - 1], name);
      assert (a + b)[..|a + b| - 1] == a + b[..|b| - 1];
    }
  }

  /** The disposition line's own name is the one that is looked up. */
  lemma DispositionLineLowers()
    ensures Lower(DISPOSITION_LINE) == CONTENT_DISPOSITION && CONTENT_DISPOSITION != CONTENT_TYPE
  {
    var name := DISPOSITION_LINE;
    assert |Lower(name)| == 19 == |CONTENT_DISPOSITION| && |CONTENT_TYPE| == 12;
    forall i | 0 <= i < 19
      ensures Lower(name)[i] == CONTENT_DISPOSITION[i]
    {
    }
  }

  lemma DispositionLineName()
    ensures Lower(Trim(DISPOSITION_LINE)) == CONTENT_DISPOSITION && OneLine(DISPOSITION_LINE)
    ensures COLON !in DISPOSITION_LINE && CONTENT_DISPOSITION != CONTENT_TYPE
  {
    var name := DISPOSITION_LINE;
    assert |name| == 19 && forall i :: 0 <= i < 19 ==> 45 <= name[i] < 0x80 && name[i] != COLON;
    AsciiIsValid(name);
    TrimmedByEnds(name);
    TrimOfTrimmed(name);
    DispositionLineLowers();
    hide Trim, ValidUtf8, Lower, SpaceAtStart, SpaceAtEnd;
  }

  lemma DispositionLineIsFound(item: Item)
    requires HeaderNamed(item.after, CONTENT_DISPOSITION).None?
    ensures HeaderNamed(HeadersOfItem(item), CONTENT_DISPOSITION) ==
            Some(Trim(DispositionText(item.kind, item.parameters)))
  {
    DispositionLineName();
    var line := Header(DISPOSITION_LINE, DispositionText(item.kind, item.parameters));
    hide Trim, Lower, DispositionText;
    HeaderNamedConcat(item.before + [line], item.after, CONTENT_DISPOSITION);
    assert (item.before + [line])[|item.before|] == line;
  }

  lemma {:induction false} ParametersAreOneLine(parameters: seq<Parameter>)
    requires forall i :: 0 <= i < |parameters| ==> Writable(parameters[i])
    ensures OneLine(ParametersText(parameters))
  {
    if parameters != [] {
      var text := ParameterText(parameters[0]);
      ParameterIsOneLine(parameters[0]);
      AsciiIsValid([SEMICOLON]);
      AsciiIsValid([SPACE]);
      hide ValidUtf8, Writable, ParameterText;
      ParametersAreOneLine(parameters[1..]);
      ValidJoin([SPACE], text);
      ValidJoin([SEMICOLON], [SPACE] + text);
      ValidJoin([SEMICOLON] + ([SPACE] + text), ParametersText(parameters[1..]));
    }
  }

  lemma ParameterIsOneLine(p: Parameter)
    requires Writable(p)
    ensures OneLine(ParameterText(p))
  {
    if p.Parameter? {
      AsciiIsValid([EQUALS]);
      AsciiIsValid([QUOTE]);
      hide ValidUtf8, Trimmed;
      ValidJoin([QUOTE], p.value);
      ValidJoin([QUOTE] + p.value, [QUOTE]);
      ValidJoin(p.key, [EQUALS]);
      ValidJoin(p.key + [EQUALS], ValueText(p));
    }
  }

  lemma AllWritable(front: seq<Header>, h: Header, back: seq<Header>)
    requires forall i :: 0 <= i < |front| ==> WritableHeader(front[i])
    requires WritableHeader(h)
    requires forall i :: 0 <= i < |back| ==> WritableHeader(back[i])
    ensures forall i :: 0 <= i < |front + [h] + back| ==> WritableHeader((front + [h] + back)[i])
  {
    hide WritableHeader;
  }

  lemma ItemHeadersAreWritable(boundary: Bytes, item: Item)
    requires Sendable(boundary, item)
    ensures HeadersOfItem(item) != []
    ensures forall i :: 0 <= i < |HeadersOfItem(item)| ==> WritableHeader(HeadersOfItem(item)[i])
  {
    DispositionLineName();
    KindIsClean(item.kind);
    ParametersAreOneLine(item.parameters);
    hide ValidUtf8, ParametersText, NameOf, FilenameOf, HeaderNamed, EqualsIgnoringCase, Writable, Free;
    ValidJoin(item.kind, ParametersText(item.parameters));
    var line := Header(DISPOSITION_LINE, DispositionText(item.kind, item.parameters));
    assert WritableHeader(line);
    hide WritableHeader;
    AllWritable(item.before, line, item.after);
  }

  function HeadingFor(item: Item): Heading
    requires NameOf(item.parameters).Some?
  {
    Heading(Disposition(NameOf(item.parameters).value, FilenameOf(item.parameters)),
            HeaderNamed(HeadersOfItem(item), CONTENT_TYPE))
  }

  /** The header block of an item says what the item is. */
  lemma HeaderBlockIsRead(boundary: Bytes, item: Item)
    requires Sendable(boundary, item)
    ensures HeadingOf(LinesText(HeadersOfItem(item))) == Ok(HeadingFor(item))
  {
    ItemHeadersAreWritable(boundary, item);
    HeadersAreRead(HeadersOfItem(item));
    DispositionLineIsFound(item);
    assert item.parameters != [];
    DispositionIsTrimmed(item.kind, item.parameters);
    DispositionIsRead(item.kind, item.parameters);
    var headers := PartHeaders(LinesText(HeadersOfItem(item))).value;
    assert (if CONTENT_DISPOSITION in headers then Some(headers[CONTENT_DISPOSITION]) else None) ==
           HeaderNamed(HeadersOfItem(item), CONTENT_DISPOSITION);
    assert (if CONTENT_TYPE in headers then Some(headers[CONTENT_TYPE]) else None) ==
           HeaderNamed(HeadersOfItem(item), CONTENT_TYPE);
    hide PartHeaders, ContentDisposition, LinesText, DispositionText, HeadersOfItem, HeaderNamed, IsMapOf;
    hide NameOf, FilenameOf, Writable, EqualsIgnoringCase, Trim, Free;
  }

  /** Every CR of the lines ends one, and the line behind it begins with something else. */
  lemma CrInTwo(first: Bytes, rest: Bytes, i: nat)
    requires CR !in first && rest != [] && rest[0] != CR
    requires i < |first + CRLF + rest| && (first + CRLF + rest)[i] == CR
    ensures var s := first + CRLF + rest;
            || (i == |first| && i + 2 < |s| && s[i + 2] != CR)
            || (i >= |first| + 2 && rest[i - |first| - 2] == CR
                && (i + 2 < |s| ==> s[i + 2] == rest[i - |first|]))
  {
    var s := first + CRLF + rest;
    assert forall k :: 0 <= k < |first| ==> s[k] == first[k];
    assert forall k :: 0 <= k < |rest| ==> s[|first| + 2 + k] == rest[k];
    assert s[|first| + 1] != CR;
  }

  lemma {:induction false} NothingBehindCr(headers: seq<Header>, i: nat)
    requires headers != [] && forall k :: 0 <= k < |headers| ==> WritableHeader(headers[k])
    requires i < |LinesText(headers)| && LinesText(headers)[i] == CR
    ensures i + 2 < |LinesText(headers)| && LinesText(headers)[i + 2] != CR
  {
    var first := HeaderLine(headers[0]);
    HeaderLineIsClean(headers[0]);
    if |headers| > 1 {
      var rest := LinesText(headers[1..]);
      FirstOfLines(headers[1..]);
      hide HeaderLine, ValidUtf8, WritableHeader;
      CrInTwo(first, rest, i);
      if i > |first| {
        NothingBehindCr(headers[1..], i - |first| - 2);
      }
      hide LinesText;
    }
  }

  lemma FirstOfLines(headers: seq<Header>)
    requires headers != [] && WritableHeader(headers[0])
    ensures LinesText(headers) != [] && LinesText(headers)[0] != CR
  {
    HeaderLineIsClean(headers[0]);
    assert HeaderLine(headers[0])[0] != CR;
    hide HeaderLine, ValidUtf8;
  }

  /** Lines without CR hold no blank line, so the one after the block is the first. */
  lemma BlankLineIsFirst(headers: seq<Header>)
    requires headers != [] && forall k :: 0 <= k < |headers| ==> WritableHeader(headers[k])
    ensures FindFrom(LinesText(headers) + BLANK_LINE, 0, BLANK_LINE) == Some(|LinesText(headers)|)
  {
    var block := LinesText(headers);
    var s := block + BLANK_LINE;
    assert |BLANK_LINE| == 4 && BLANK_LINE[0] == BLANK_LINE[2] == CR;
    forall i | 0 <= i < |block|
      ensures !OccursAt(s, i, BLANK_LINE)
    {
      assert s[i] == block[i];
      if block[i] == CR {
        NothingBehindCr(headers, i);
        assert s[i + 2] == block[i + 2];
        NoOccurrence(s, i, BLANK_LINE, 2);
      } else {
        NoOccurrence(s, i, BLANK_LINE, 0);
      }
    }
    assert s[|block|..|block| + 4] == BLANK_LINE;
    FoundIfLeast(s, 0, BLANK_LINE, |block|);
  }

  lemma CrComesFirst(boundary: Bytes, k: nat)
    requires CR !in boundary && 0 < k < |Delimiter(boundary)|
    ensures Delimiter(boundary)[0] == CR != Delimiter(boundary)[k]
  {
  }

  /** An occurrence inside the content is excluded; one that overlaps the end would need a second CR. */
  lemma NoDelimiterBeforeEnd(boundary: Bytes, content: Bytes, i: nat)
    requires CR !in boundary && Free(Delimiter(boundary), content) && i < |content|
    ensures !OccursAt(content + Delimiter(boundary), i, Delimiter(boundary))
  {
    var delimiter := Delimiter(boundary);
    hide Delimiter;
    DelimiterIsNotEmpty(boundary);
    if i + |delimiter| <= |content| {
      assert [] + content + delimiter == content + delimiter;
      OccursInContext([], content, delimiter, delimiter, i);
    } else {
      CrComesFirst(boundary, |content| - i);
      assert (content + delimiter)[|content|] == delimiter[0];
      NoOccurrence(content + delimiter, i, delimiter, |content| - i);
    }
  }

  /** A delimiter whose only CR comes first cannot overlap itself, so content free of it ends at the first one. */
  lemma DelimiterIsFirst(boundary: Bytes, content: Bytes)
    requires CR !in boundary && Free(Delimiter(boundary), content)
    ensures FindFrom(content + Delimiter(boundary), 0, Delimiter(boundary)) == Some(|content|)
  {
    var delimiter := Delimiter(boundary);
    forall i | 0 <= i < |content|
      ensures !OccursAt(content + delimiter, i, delimiter)
    {
      NoDelimiterBeforeEnd(boundary, content, i);
    }
    hide FindFrom, Free, Delimiter;
    DelimiterIsNotEmpty(boundary);
    MiddleSlice(content, delimiter, []);
    assert content + delimiter + [] == content + delimiter;
    FoundIfLeast(content + delimiter, 0, delimiter, |content|);
  }

  // --- the whole body ---

  function SectionsOf(items: seq<Item>): seq<Section> {
    if items == [] then [] else [SectionOf(items[0])] + SectionsOf(items[1..])
  }

  predicate HasName(item: Item) {
    NameOf(item.parameters).Some?
  }

  predicate IsFile(item: Item) {
    FilenameOf(item.parameters).Some?
  }

  /** The part an item whose section starts at `cursor` comes back as. */
  function PartFor(boundary: Bytes, item: Item, cursor: nat): Part
    requires HasName(item)
  {
    var name := NameOf(item.parameters).value;
    match FilenameOf(item.parameters)
    case None => FieldPart(Field(name, item.content))
    case Some(filename) =>
      FilePart(File(name, filename, HeaderNamed(HeadersOfItem(item), CONTENT_TYPE),
                    ContentStart(boundary, SectionOf(item), cursor), |item.content|))
  }

  function PartsFor(boundary: Bytes, items: seq<Item>, cursor: nat): seq<Part>
    requires forall i :: 0 <= i < |items| ==> HasName(items[i])
  {
    if items == [] then []
    else
      [PartFor(boundary, items[0], cursor)]
      + PartsFor(boundary, items[1..], SectionEnd(boundary, SectionOf(items[0]), cursor))
  }

  lemma ItemMeansItsPart(boundary: Bytes, item: Item, cursor: nat)
    requires CR !in boundary && Sendable(boundary, item)
    ensures HasName(item) && Means(boundary, SectionOf(item), cursor, PartFor(boundary, item, cursor))
  {
    ItemHeadersAreWritable(boundary, item);
    BlankLineIsFirst(HeadersOfItem(item));
    DelimiterIsFirst(boundary, item.content);
    HeaderBlockIsRead(boundary, item);
    hide FindFrom, HeadingOf, HeadersOfItem, HeaderNamed, LinesText, Delimiter, Writable, WritableHeader, Free;
    hide NameOf, FilenameOf, EqualsIgnoringCase, ValidUtf8, ContentStart;
  }

  lemma {:induction false} ItemsMeanTheirParts(boundary: Bytes, items: seq<Item>, cursor: nat)
    requires CR !in boundary && forall i :: 0 <= i < |items| ==> Sendable(boundary, items[i])
    ensures forall i :: 0 <= i < |items| ==> HasName(items[i])
    ensures AllMean(boundary, SectionsOf(items), cursor, PartsFor(boundary, items, cursor))
  {
    assert forall i :: 0 <= i < |items| ==> HasName(items[i]);
    hide Means, PartFor, SectionOf, SectionEnd, Sendable, HasName;
    if items != [] {
      ItemMeansItsPart(boundary, items[0], cursor);
      ItemsMeanTheirParts(boundary, items[1..], SectionEnd(boundary, SectionOf(items[0]), cursor));
    }
  }

  /** The part is what the item means, and a file's slice of the body is the item's content. */
  predicate Returns(body: Bytes, part: Part, item: Item)
    requires HasName(item)
  {
    var name := NameOf(item.parameters).value;
    match FilenameOf(item.parameters)
    case None => part == FieldPart(Field(name, item.content))
    case Some(filename) =>
      && part.FilePart?
      && part.file.fieldName == name && part.file.filename == filename
      && part.file.contentType == HeaderNamed(HeadersOfItem(item), CONTENT_TYPE)
      && part.file.start + part.file.length <= |body|
      && body[part.file.start..part.file.start + part.file.length] == item.content
  }

  lemma DataInSection(before: Bytes, marker: Bytes, block: Bytes, data: Bytes, rest: Bytes)
    ensures before + (marker + CRLF + block + BLANK_LINE + data + CRLF) + rest ==
            (before + marker + CRLF + block + BLANK_LINE) + data + (CRLF + rest)
  {
  }

  lemma PartReturnsItem(before: Bytes, boundary: Bytes, item: Item, rest: Bytes)
    requires HasName(item)
    ensures Returns(before + RenderSection(boundary, SectionOf(item)) + rest, PartFor(boundary, item, |before|), item)
  {
    if IsFile(item) {
      hide Marker, LinesText, HeadersOfItem, HeaderNamed, NameOf, FilenameOf;
      var block := SectionOf(item).block;
      DataInSection(before, Marker(boundary), block, item.content, rest);
      MiddleSlice(before + Marker(boundary) + CRLF + block + BLANK_LINE, item.content, CRLF + rest);
    }
  }

  lemma {:induction false} PartsReturnItems(before: Bytes, boundary: Bytes, items: seq<Item>, tail: Bytes)
    requires forall i :: 0 <= i < |items| ==> HasName(items[i])
    ensures var parts := PartsFor(boundary, items, |before|);
            && |parts| == |items|
            && forall i :: 0 <= i < |parts| ==>
                 Returns(before + Render(boundary, SectionsOf(items), tail), parts[i], items[i])
    decreases |items|
  {
    hide Returns, PartFor, SectionOf, SectionEnd, Render, RenderSection, HasName;
    if items != [] {
      var sections := SectionsOf(items);
      var rest := Render(boundary, sections[1..], tail);
      RenderStep(before, boundary, sections, tail);
      PartReturnsItem(before, boundary, items[0], rest);
      assert sections[1..] == SectionsOf(items[1..]);
      PartsReturnItems(before + RenderSection(boundary, sections[0]), boundary, items[1..], tail);
    }
  }

  /** The items that are files, or those that are not, in their order. */
  function Those(items: seq<Item>, files: bool): (chosen: seq<Item>)
    ensures (forall i :: 0 <= i < |items| ==> HasName(items[i])) ==>
              forall i :: 0 <= i < |chosen| ==> HasName(chosen[i])
  {
    if items == [] then []
    else
      var front, last := items[..|items| - 1], items[|items| - 1];
      Those(front, files) + if IsFile(last) == files then [last] else []
  }

  /** The form has the items that are not files as fields and those that are as files, each in their order. */
  ghost predicate FormReturns(body: Bytes, form: Form, items: seq<Item>)
    requires forall i :: 0 <= i < |items| ==> HasName(items[i])
  {
    && |form.fields| == |Those(items, false)| && |form.files| == |Those(items, true)|
    && (forall i :: 0 <= i < |form.fields| ==> Returns(body, FieldPart(form.fields[i]), Those(items, false)[i]))
    && (forall i :: 0 <= i < |form.files| ==> Returns(body, FilePart(form.files[i]), Those(items, true)[i]))
  }

  lemma {:induction false} CollectReturnsItems(body: Bytes, parts: seq<Part>, items: seq<Item>)
    requires |parts| == |items|
    requires forall i :: 0 <= i < |parts| ==> HasName(items[i]) && Returns(body, parts[i], items[i])
    ensures FormReturns(body, Collect(parts), items)
  {
    if parts != [] {
      var n := |parts| - 1;
      CollectReturnsItems(body, parts[..n], items[..n]);
      assert Returns(body, parts[n], items[n]);
      assert parts[n].FieldPart? <==> !IsFile(items[n]);
      hide Returns, IsFile, HasName;
    }
  }

  /**
   * The round trip: for any items a client may send with a CR-free boundary, parsing what it sends gives the fields and
   * files back, in order, and each file's slice of the body is the data sent.
   */
  lemma RoundTrip(boundary: Bytes, items: seq<Item>, tail: Bytes)
    requires CR !in boundary && ProperTail(tail)
    requires forall i :: 0 <= i < |items| ==> Sendable(boundary, items[i])
    ensures forall i :: 0 <= i < |items| ==> HasName(items[i])
    ensures var body := Render(boundary, SectionsOf(items), tail);
            Parse(body, boundary).Ok? && FormReturns(body, Parse(body, boundary).value, items)
  {
    ItemsMeanTheirParts(boundary, items, 0);
    var body, parts := Render(boundary, SectionsOf(items), tail), PartsFor(boundary, items, 0);
    PartsReturnItems([], boundary, items, tail);
    assert [] + body == body;
    CollectReturnsItems(body, parts, items);
    hide Render, AllMean, PartsFor, Collect, ProperTail, FormReturns, SectionsOf, Parse, Sendable, HasName;
    assert InGrammar(body, boundary, Collect(parts));
    ParseIsTheGrammar(body, boundary, Collect(parts));
  }
}
