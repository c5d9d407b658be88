/**
 The HTTP/1.x messages of `native/mars/comm/http.cc`: what the builder writes
 and one pass of the incremental parser's loop.
 */
module Http {

  import opened Options
  import opened Strings
  import opened HttpText

  // ----- first lines -----

  const METHODS: seq<string> := ["UNKNOWN", "GET", "POST", "OPTIONS", "HEAD", "PUT", "DELETE", "TRACE", "CONNECT"]
  const VERSIONS: seq<string> := ["HTTP/0.9", "HTTP/1.0", "HTTP/1.1", "HTTP/2", "version_unknown"]
  const UNKNOWN_METHOD: nat := 0
  const UNKNOWN_VERSION: nat := 4

  /** The first index whose entry is s, or the given default. */
  function Lookup(table: seq<string>, s: string, i: nat, default: nat): nat
    requires i <= |table|
    decreases |table| - i
  {
    if i == |table| then default else if table[i] == s then i else Lookup(table, s, i + 1, default)
  }

  datatype RequestLine = RequestLine(verb: nat, url: string, version: nat)
  datatype StatusLine = StatusLine(version: nat, code: int, reason: string)

  function RequestToString(r: RequestLine): string
    requires r.verb < |METHODS| && r.version < |VERSIONS|
  {
    METHODS[r.verb] + (" " + (r.url + (" " + (VERSIONS[r.version] + CRLF))))
  }

  function StatusToString(s: StatusLine): string
    requires s.version < |VERSIONS|
  {
    VERSIONS[s.version] + (" " + (Decimal(s.code) + (" " + (s.reason + CRLF))))
  }

  /** The line up to its CRLF, split at spaces. */
  function LineTokens(line: string): Option<seq<string>> {
    var pos := FindTag(line, CRLF, 0);
    if pos == |line| then None else Some(Tokens(line[..pos], ' '))
  }

  function RequestFromString(line: string): Option<RequestLine> {
    match LineTokens(line)
    case None => None
    case Some(ts) =>
      if |ts| < 3 then None else
      var verb := Lookup(METHODS, ts[0], 0, UNKNOWN_METHOD);
      var version := Lookup(VERSIONS, ts[2], 0, UNKNOWN_VERSION);
      if verb == UNKNOWN_METHOD || version == UNKNOWN_VERSION then None
      else Some(RequestLine(verb, ts[1], version))
  }

  /** A third token becomes the reason phrase only if it is the last one. */
  function StatusFromString(line: string, was: StatusLine): Option<StatusLine> {
    match LineTokens(line)
    case None => None
    case Some(ts) =>
      if |ts| < 2 then None else
      var version := Lookup(VERSIONS, ts[0], 0, UNKNOWN_VERSION);
      if version == UNKNOWN_VERSION then None
      else Some(StatusLine(version, Strtol(ts[1]), if |ts| == 3 then ts[2] else was.reason))
  }

  /** What a refused request line leaves: method and URL are stored before the version is looked at. */
  function RequestRefused(line: string, was: RequestLine): RequestLine {
    match LineTokens(line)
    case None => was
    case Some(ts) =>
      if |ts| < 3 || Lookup(METHODS, ts[0], 0, UNKNOWN_METHOD) == UNKNOWN_METHOD then was
      else RequestLine(Lookup(METHODS, ts[0], 0, UNKNOWN_METHOD), ts[1], UNKNOWN_VERSION)
  }

  /** What a refused status line leaves. */
  function StatusRefused(line: string, was: StatusLine): StatusLine {
    match LineTokens(line)
    case None => was
    case Some(ts) => if |ts| < 2 then was else was.(version := UNKNOWN_VERSION)
  }

  // ----- header fields -----

  function LowerChar(c: char): char {
    if 'A' <= c <= 'Z' then (c as int + 32) as char else c
  }

  /** `strcasecmp(x, y) < 0`. */
  predicate LessNoCase(x: string, y: string) {
    if y == "" then false
    else if x == "" then true
    else if LowerChar(x[0]) != LowerChar(y[0]) then LowerChar(x[0]) < LowerChar(y[0])
    else LessNoCase(x[1..], y[1..])
  }

  predicate SameNoCase(x: string, y: string) { !LessNoCase(x, y) && !LessNoCase(y, x) }

  /** The ordered map of fields, in iteration order. */
  type Fields = seq<(string, string)>

  /** `headers_[name] = value`: an existing key keeps its spelling. */
  function Put(h: Fields, name: string, value: string): Fields {
    if h == [] then [(name, value)]
    else if LessNoCase(name, h[0].0) then [(name, value)] + h
    else if SameNoCase(name, h[0].0) then [(h[0].0, value)] + h[1..]
    else [h[0]] + Put(h[1..], name, value)
  }

  function Get(h: Fields, name: string): Option<string> {
    if h == [] then None else if SameNoCase(h[0].0, name) then Some(h[0].1) else Get(h[1..], name)
  }

  function FieldsToString(h: Fields): string {
    if h == [] then "" else h[0].0 + (": " + (h[0].1 + (CRLF + FieldsToString(h[1..]))))
  }

  /** One header line: a line without a colon is both name and value, one of colons only is skipped. */
  function AddLine(h: Fields, line: string): Fields {
    if forall c :: c in line ==> c == ':' then h else
    var colon := IndexOf(line, 0, ':');
    if colon == |line| then Put(h, Trim(line), Trim(line))
    else if |line| > colon + 1 then Put(h, Trim(line[..colon]), Trim(line[colon + 1..]))
    else h
  }

  function ParseFields(s: string, h: Fields): Fields
    decreases |s|
  {
    var i := FindTag(s, CRLF, 0);
    if i == |s| then h else ParseFields(s[i + 2..], AddLine(h, s[..i]))
  }

  predicate IsChunked(h: Fields) {
    match Get(h, "Transfer-Encoding") case None => false case Some(v) => SameNoCase(v, "chunked")
  }

  predicate IsConnectionClose(h: Fields) {
    match Get(h, "Connection") case None => false case Some(v) => SameNoCase(v, "close")
  }

  function ContentLength(h: Fields): nat {
    match Get(h, "Content-Length") case None => 0 case Some(v) => Strtoull(v, 10)
  }

  // ----- the parser -----

  const FIRST_LINE_LIMIT: nat := 8 * 1024
  const FIELDS_LIMIT: nat := 128 * 1024
  const MAX_LENGTH: nat := 4 * 1024 * 1024 * 1024

  datatype Status =
    | Start | FirstLine | FirstLineError | HeaderFields | HeaderFieldsError | Body | BodyError | End

  datatype Mode = RequestMode | RespondMode

  /** The parser's fields; `body` is what the body receiver has been given. */
  datatype State = State(status: Status, buf: string, mode: Mode, request: RequestLine, response: StatusLine,
                         fields: Fields, body: string, firstLineLength: nat, headerLength: nat)

  predicate Failed(st: State) {
    st.status == FirstLineError || st.status == HeaderFieldsError || st.status == BodyError
  }

  const INITIAL: State := State(Start, "", RespondMode, RequestLine(1, "", 1), StatusLine(1, 0, ""), [], "", 0, 0)

  /** One pass of the loop: either it returns, or it goes round again. */
  datatype Turn = Return(st: State) | Again(st: State)

  /** With the places where a CRLF and a blank line were found. */
  function FirstLineAt(st: State, crlf: Option<nat>, blank: Option<nat>): Turn
    requires crlf.Some? ==> crlf.value + 2 <= |st.buf|
    requires blank.Some? ==> blank.value + 4 <= |st.buf|
  {
    match crlf
    case None =>
      Return(st.(status := if FIRST_LINE_LIMIT < |st.buf| then FirstLineError else FirstLine))
    case Some(pos) =>
      var line := st.buf[..pos + 2];
      var response := StatusFromString(line, st.response);
      var request := RequestFromString(line);
      if "HTTP/" <= line && response.None? then
        Return(st.(status := FirstLineError, response := StatusRefused(line, st.response)))
      else if !("HTTP/" <= line) && request.None? then
        Return(st.(status := FirstLineError, request := RequestRefused(line, st.request)))
      else
        var read := if "HTTP/" <= line then st.(response := response.value, mode := RespondMode)
                    else st.(request := request.value, mode := RequestMode);
        var done := read.(firstLineLength := pos + 2);
        // A first line directly followed by the blank line has no fields.
        if blank == Some(pos) then Again(done.(status := Body, buf := st.buf[pos + 4..]))
        else Again(done.(status := HeaderFields, buf := st.buf[pos + 2..]))
  }

  function ReadFirstLine(st: State): Turn {
    FirstLineAt(st, StrnStr(st.buf, CRLF), StrnStr(st.buf, BLANK))
  }

  function FieldsAt(st: State, blank: Option<nat>): Turn
    requires blank.Some? ==> blank.value + 4 <= |st.buf|
  {
    match blank
    case None =>
      if FIELDS_LIMIT < |st.buf| then Return(st.(status := HeaderFieldsError)) else Return(st)
    case Some(pos) =>
      Again(st.(status := Body, fields := ParseFields(st.buf[..pos + 4], st.fields), buf := st.buf[pos + 4..],
                headerLength := pos + 4))
  }

  function ReadFields(st: State): Turn { FieldsAt(st, StrnStr(st.buf, BLANK)) }

  /** `Move` drops no more than there is. */
  function Dropped(s: string, n: nat): string { if n <= |s| then s[n..] else "" }

  /** With the places where the size line ends and where, counted from behind it, the trailer does. */
  function ChunkAt(st: State, crlf: Option<nat>, trailer: Option<nat>): Turn
    requires crlf.Some? ==> crlf.value + 2 <= |st.buf|
  {
    match crlf
    case None => Return(st)
    case Some(sizeEnd) =>
      var size := Strtoull(Trim(st.buf[..sizeEnd]), 16);
      if size > MAX_LENGTH then Return(st.(status := BodyError))
      else if size != 0 then
        if |st.buf| < size + sizeEnd + 4 then Return(st) else
        var begin := sizeEnd + 2;
        var end := begin + size;
        if st.buf[end..end + 2] != CRLF then Return(st.(status := BodyError))
        else
          var next := st.(body := st.body + st.buf[begin..end], buf := st.buf[end + 2..]);
          if next.buf == "" then Return(next) else Again(next)
      else if |st.buf| < sizeEnd + 4 then Return(st)
      else
        match trailer
        case None => Return(st)
        case Some(trailerEnd) =>
          Return(st.(status := End, buf := Dropped(st.buf, sizeEnd + 2 + trailerEnd + 2)))
  }

  /** A trailer searched for in the contents of the buffer only; see `HttpInts` for the bytes behind them. */
  function ReadChunk(st: State): Turn {
    var crlf := StrnStr(st.buf, CRLF);
    ChunkAt(st, crlf, if crlf.Some? then StrnStr(st.buf[crlf.value + 2..], CRLF) else None)
  }

  /**
   How much of the buffer a body of known length takes. The unsigned difference
   wraps to more than any length when the body is already too long; that is
   negative here.
   */
  function AppendLength(st: State): (n: int)
    ensures n <= |st.buf|
  {
    var length := ContentLength(st.fields);
    if IsConnectionClose(st.fields) && length == 0 then |st.buf|
    else if |st.buf| + |st.body| <= length then |st.buf|
    else length - |st.body|
  }

  function ReadBody(st: State): Turn {
    var length := ContentLength(st.fields);
    var n := AppendLength(st);
    if length > MAX_LENGTH || n < 0 || n > MAX_LENGTH then Return(st.(status := BodyError))
    else
      var next := st.(body := st.body + st.buf[..n], buf := st.buf[n..]);
      if |next.body| == length then Return(next.(status := End))
      else if next.buf == "" then Return(next) else Again(next)
  }

  function Pass(st: State): Turn
    requires !Failed(st)
  {
    match st.status
    case Start => ReadFirstLine(st)
    case FirstLine => ReadFirstLine(st)
    case HeaderFields => ReadFields(st)
    case Body => if IsChunked(st.fields) then ReadChunk(st) else ReadBody(st)
    case _ => Return(st)
  }

  function Rank(s: Status): nat {
    match s
    case Start => 3
    case FirstLine => 3
    case HeaderFields => 2
    case Body => 1
    case _ => 0
  }

  /** Status first, then buffer: what every pass that goes round again brings down. */
  predicate Closer(next: State, st: State) {
    !Failed(next) && (Rank(next.status) < Rank(st.status)
                      || (Rank(next.status) == Rank(st.status) && |next.buf| < |st.buf|))
  }

  lemma ChunkProgresses(st: State, crlf: Option<nat>, trailer: Option<nat>)
    requires crlf.Some? ==> crlf.value + 2 <= |st.buf|
    requires st.status == Body && ChunkAt(st, crlf, trailer).Again?
    ensures Closer(ChunkAt(st, crlf, trailer).st, st)
  {
    hide Strtoull, Trim;
  }

  lemma PassOverChunkProgresses(st: State)
    requires st.status == Body && ReadChunk(st).Again?
    ensures Closer(ReadChunk(st).st, st)
  {
    hide StrnStr, ChunkAt;
    var crlf := StrnStr(st.buf, CRLF);
    ChunkProgresses(st, crlf, if crlf.Some? then StrnStr(st.buf[crlf.value + 2..], CRLF) else None);
  }

  /** A body of known length takes what it can in one pass. */
  lemma BodyReturns(st: State)
    ensures ReadBody(st).Return?
  {
    hide Strtoull, Get, SameNoCase;
  }

  lemma PassProgresses(st: State)
    requires !Failed(st) && Pass(st).Again?
    ensures Closer(Pass(st).st, st)
  {
    hide StrnStr, StatusFromString, RequestFromString, ParseFields, IsChunked, ReadChunk, ReadBody;
    match st.status {
      case Body =>
        if IsChunked(st.fields) {
          PassOverChunkProgresses(st);
        } else {
          BodyReturns(st);
        }
      case _ =>
    }
  }

  /** The loop of `Recv`. */
  function Drive(st: State): State
    requires !Failed(st)
    decreases Rank(st.status), |st.buf|
  {
    match Pass(st)
    case Return(next) => next
    case Again(next) =>
      PassProgresses(st);
      Drive(next)
  }

  lemma DriveStep(st: State)
    requires !Failed(st)
    ensures Pass(st).Again? ==> !Failed(Pass(st).st) && Drive(st) == Drive(Pass(st).st)
    ensures Pass(st).Return? ==> Drive(st) == Pass(st).st
  {
    hide ReadFirstLine, ReadFields, ReadChunk, ReadBody, IsChunked;
    if Pass(st).Again? {
      PassProgresses(st);
    }
  }

  /**
   The size line of the last chunk and two bytes more have arrived, but no line
   end behind it: the search for one goes on behind the contents of the buffer.
   */
  predicate Open(st: State) {
    st.status == Body && IsChunked(st.fields) &&
    match StrnStr(st.buf, CRLF)
    case None => false
    case Some(sizeEnd) =>
      Strtoull(Trim(st.buf[..sizeEnd]), 16) == 0 && sizeEnd + 4 <= |st.buf|
      && StrnStr(st.buf[sizeEnd + 2..], CRLF) == None
  }

  /**
   `Recv` for a parser that looks at nothing but the contents of its buffer: an
   empty call ends a body that is delimited by the end of the connection.
   */
  function Recv(st: State, data: string): State
    requires !Failed(st)
  {
    if data == "" then
      if IsConnectionClose(st.fields) && st.status == Body then st.(status := End) else st
    else Drive(st.(buf := st.buf + data))
  }
}
