/**
 Whether it matters how a stream is cut into calls of `Recv`
 (`native/mars/comm/http.cc`), as far as the parser looks at the contents of its
 buffer only: it does not, but in two corners. `HttpCode` has the result for all
 that the parser looks at.
 */
module HttpCuts {

  import opened Options
  import opened HttpText
  import opened Http

  // ----- what has been read completely is read alike whatever follows -----

  /** The stream's first line is directly followed by the blank line. */
  predicate Headerless(s: string) {
    StrnStr(s, CRLF).Some? && StrnStr(s, BLANK) == StrnStr(s, CRLF)
  }

  function With(st: State, more: string): State { st.(buf := st.buf + more) }

  lemma FirstLineIsStable(st: State, more: string)
    requires ReadFirstLine(st).Again? && !Headerless(st.buf + more)
    ensures ReadFirstLine(With(st, more)) == Again(With(ReadFirstLine(st).st, more))
  {
    hide StrnStr, StatusFromString, RequestFromString;
    var buf := st.buf + more;
    FoundIsStable(st.buf, more, CRLF);
    var pos := StrnStr(st.buf, CRLF).value;
    assert buf[..pos + 2] == st.buf[..pos + 2] && buf[pos + 2..] == st.buf[pos + 2..] + more;
    if StrnStr(st.buf, BLANK).Some? {
      FoundIsStable(st.buf, more, BLANK);
    }
  }

  lemma FieldsAreStable(st: State, more: string)
    requires ReadFields(st).Again?
    ensures ReadFields(With(st, more)) == Again(With(ReadFields(st).st, more))
  {
    hide StrnStr, ParseFields;
    var buf := st.buf + more;
    FoundIsStable(st.buf, more, BLANK);
    var pos := StrnStr(st.buf, BLANK).value;
    assert buf[..pos + 4] == st.buf[..pos + 4] && buf[pos + 4..] == st.buf[pos + 4..] + more;
  }

  predicate ChunkSize(st: State, sizeEnd: nat, size: nat) {
    StrnStr(st.buf, CRLF) == Some(sizeEnd) && Strtoull(Trim(st.buf[..sizeEnd]), 16) == size
  }

  lemma ChunkSizeIsStable(st: State, more: string, sizeEnd: nat, size: nat)
    requires ChunkSize(st, sizeEnd, size)
    ensures ChunkSize(With(st, more), sizeEnd, size)
  {
    hide StrnStr, Strtoull, Trim;
    FoundIsStable(st.buf, more, CRLF);
    assert (st.buf + more)[..sizeEnd] == st.buf[..sizeEnd];
  }

  /** What a chunk that has arrived leaves behind. */
  function AfterChunk(st: State, sizeEnd: nat, size: nat): State
    requires sizeEnd + size + 4 <= |st.buf|
  {
    st.(body := st.body + st.buf[sizeEnd + 2..sizeEnd + 2 + size], buf := st.buf[sizeEnd + 2 + size + 2..])
  }

  predicate ChunkComplete(st: State, sizeEnd: nat, size: nat) {
    sizeEnd + size + 4 <= |st.buf| && st.buf[sizeEnd + 2 + size..sizeEnd + 2 + size + 2] == CRLF
  }

  /** Every outcome of reading a chunk of nonzero size. */
  lemma ChunkCases(st: State, sizeEnd: nat, size: nat)
    requires ChunkSize(st, sizeEnd, size) && size != 0
    ensures size > MAX_LENGTH ==> Failed(ReadChunk(st).st)
    ensures size <= MAX_LENGTH && |st.buf| < sizeEnd + size + 4 ==> ReadChunk(st) == Return(st)
    ensures size <= MAX_LENGTH && ChunkComplete(st, sizeEnd, size) ==>
              ReadChunk(st) == (var next := AfterChunk(st, sizeEnd, size);
                                if next.buf == "" then Return(next) else Again(next))
    ensures size <= MAX_LENGTH && |st.buf| >= sizeEnd + size + 4 && !ChunkComplete(st, sizeEnd, size) ==>
              Failed(ReadChunk(st).st)
  {
    hide StrnStr, Strtoull, Trim;
  }

  lemma ChunkIsStable(st: State, more: string, sizeEnd: nat, size: nat)
    requires more != "" && ChunkSize(st, sizeEnd, size) && 0 < size <= MAX_LENGTH && ChunkComplete(st, sizeEnd, size)
    ensures ReadChunk(With(st, more)) == Again(With(AfterChunk(st, sizeEnd, size), more))
  {
    hide StrnStr, Strtoull, Trim, ChunkSize, ReadChunk;
    ChunkSizeIsStable(st, more, sizeEnd, size);
    ChunkCases(With(st, more), sizeEnd, size);
    var buf := st.buf + more;
    var end := sizeEnd + 2 + size;
    assert buf[sizeEnd + 2..end] == st.buf[sizeEnd + 2..end] && buf[end..end + 2] == st.buf[end..end + 2];
    assert buf[end + 2..] == st.buf[end + 2..] + more;
  }

  lemma LastChunkIsStable(st: State, more: string, sizeEnd: nat)
    requires ChunkSize(st, sizeEnd, 0) && ReadChunk(st) != Return(st)
    ensures ReadChunk(st).Return? && ReadChunk(st).st.status == End
    ensures ReadChunk(With(st, more)) == Return(With(ReadChunk(st).st, more))
  {
    hide StrnStr, Strtoull, Trim;
    ChunkSizeIsStable(st, more, sizeEnd, 0);
    var buf := st.buf + more;
    var rest := st.buf[sizeEnd + 2..];
    assert buf[sizeEnd + 2..] == rest + more;
    FoundIsStable(rest, more, CRLF);
    var n := sizeEnd + 2 + StrnStr(rest, CRLF).value + 2;
    assert buf[n..] == st.buf[n..] + more;
  }

  // ----- one cut -----

  /** The body is delimited by the end of the connection. */
  predicate CloseDelimited(h: Fields) {
    !IsChunked(h) && IsConnectionClose(h) && ContentLength(h) == 0
  }

  /**
   Before reading a body with st.buf buffered: a close-delimited body is taken
   for complete when nothing of it has arrived with the header, and is refused
   when too much arrives at once.
   */
  predicate BodyCutMatters(st: State, more: string) {
    CloseDelimited(st.fields) && if st.buf == "" then st.body == "" else |st.buf| + |more| > MAX_LENGTH
  }

  /** The state after taking n bytes of body. */
  function Took(st: State, n: nat, status: Status): State
    requires n <= |st.buf|
  {
    st.(status := status, body := st.body + st.buf[..n], buf := st.buf[n..])
  }

  /** Every outcome of reading a body without chunks. */
  lemma PlainCases(st: State)
    requires st.status == Body
    ensures var r := ReadBody(st); var length := ContentLength(st.fields);
            r.Return? &&
            if IsConnectionClose(st.fields) && length == 0 then
              if |st.buf| > MAX_LENGTH then r.st == st.(status := BodyError)
              else r.st == Took(st, |st.buf|, if st.body == "" && st.buf == "" then End else Body)
            else if length > MAX_LENGTH || |st.body| > length then r.st == st.(status := BodyError)
            else if |st.buf| + |st.body| < length then r.st == Took(st, |st.buf|, Body)
            else r.st == Took(st, length - |st.body|, End)
  {
    hide IsConnectionClose, ContentLength;
  }

  /** A close-delimited body. */
  lemma CloseDelimitedCut(st: State, more: string)
    requires st.status == Body && more != "" && CloseDelimited(st.fields) && !Failed(ReadBody(st).st)
    ensures var r := ReadBody(st).st;
            (if r.status == End then With(r, more) == ReadBody(With(st, more)).st
             else ReadBody(With(r, more)) == ReadBody(With(st, more))) <==> !BodyCutMatters(st, more)
  {
    hide IsChunked, IsConnectionClose, ContentLength, ReadBody;
    var r := ReadBody(st).st;
    var buf := st.buf + more;
    PlainCases(st);
    PlainCases(With(st, more));
    if r.status == Body {
      PlainCases(With(r, more));
    }
    assert st.buf[..|st.buf|] == st.buf && buf[..|buf|] == buf && more[..|more|] == more;
    assert st.body + st.buf + more == st.body + buf;
    assert |r.body| == |st.body| + |st.buf|;
  }

  predicate Sized(st: State) {
    st.status == Body && !(IsConnectionClose(st.fields) && ContentLength(st.fields) == 0)
  }

  /** A body of known length that is complete. */
  lemma CompleteBodyIsStable(st: State, more: string)
    requires Sized(st) && ReadBody(st).st.status == End
    ensures With(ReadBody(st).st, more) == ReadBody(With(st, more)).st
  {
    hide IsConnectionClose, ContentLength, ReadBody;
    PlainCases(st);
    PlainCases(With(st, more));
    var buf := st.buf + more;
    var m: int := ContentLength(st.fields) - |st.body|;
    assert buf[..m] == st.buf[..m] && buf[m..] == st.buf[m..] + more;
  }

  /** Taking k bytes more after taking all that was there. */
  lemma TookTwice(st: State, more: string, k: nat, status: Status)
    requires k <= |more|
    ensures Took(With(Took(st, |st.buf|, Body), more), k, status) == Took(With(st, more), |st.buf| + k, status)
  {
    var buf := st.buf + more;
    assert st.buf[..|st.buf|] == st.buf && st.buf[|st.buf|..] + more == more;
    assert st.body + buf[..|st.buf| + k] == (st.body + st.buf) + more[..k];
    assert buf[|st.buf| + k..] == more[k..];
  }

  /** A body of known length that is not. */
  lemma PartialBodyGoesOn(st: State, more: string)
    requires Sized(st) && ReadBody(st).st.status == Body
    ensures ReadBody(With(ReadBody(st).st, more)) == ReadBody(With(st, more))
  {
    hide IsConnectionClose, ContentLength, ReadBody;
    var r := ReadBody(st).st;
    var length: int := ContentLength(st.fields);
    PlainCases(st);
    assert r == Took(st, |st.buf|, Body) && |st.buf| + |st.body| < length <= MAX_LENGTH;
    hide Took;
    TookFields(st);
    PlainCases(With(r, more));
    PlainCases(With(st, more));
    TookTwice(st, more, if length - |r.body| <= |more| then length - |r.body| else |more|, End);
    TookTwice(st, more, |more|, Body);
  }

  lemma TookFields(st: State)
    ensures var r := Took(st, |st.buf|, Body);
            r.fields == st.fields && |r.body| == |st.body| + |st.buf| && r.buf == "" && r.status == Body
  {
  }

  lemma SizedCut(st: State, more: string)
    requires Sized(st) && !Failed(ReadBody(st).st)
    ensures var r := ReadBody(st).st;
            if r.status == End then With(r, more) == ReadBody(With(st, more)).st
            else ReadBody(With(r, more)) == ReadBody(With(st, more))
  {
    hide IsConnectionClose, ContentLength, ReadBody;
    PlainCases(st);
    if ReadBody(st).st.status == End {
      CompleteBodyIsStable(st, more);
    } else {
      PartialBodyGoesOn(st, more);
    }
  }

  lemma PlainBodyCut(st: State, more: string)
    requires st.status == Body && !IsChunked(st.fields) && more != "" && !Failed(Drive(st))
    ensures Drive(With(Drive(st), more)) == Drive(With(st, more)) <==> !BodyCutMatters(st, more)
  {
    hide IsChunked, IsConnectionClose, ContentLength, ReadBody;
    PlainCases(st);
    PlainCases(With(st, more));
    var r := ReadBody(st).st;
    assert Drive(st) == r;
    if r.status == Body {
      PlainCases(With(r, more));
    }
    if CloseDelimited(st.fields) {
      CloseDelimitedCut(st, more);
    } else {
      SizedCut(st, more);
    }
  }

  /** Chunked bodies can be cut anywhere, as long as only the contents of the buffer are looked at. */
  lemma {:induction false} ChunkedCut(st: State, more: string)
    requires st.status == Body && IsChunked(st.fields) && more != "" && !Failed(Drive(st))
    ensures Drive(With(Drive(st), more)) == Drive(With(st, more))
    decreases |st.buf|
  {
    hide StrnStr, Strtoull, Trim, IsChunked;
    var r := Drive(st);
    if ReadChunk(st) != Return(st) {
      var sizeEnd := StrnStr(st.buf, CRLF).value;
      var size := Strtoull(Trim(st.buf[..sizeEnd]), 16);
      ChunkedStep(st, more, sizeEnd, size);
      if ReadChunk(st).Again? {
        ChunkedCut(ReadChunk(st).st, more);
      }
    }
  }

  lemma ChunkedStep(st: State, more: string, sizeEnd: nat, size: nat)
    requires st.status == Body && more != "" && !Failed(ReadChunk(st).st)
    requires ChunkSize(st, sizeEnd, size) && ReadChunk(st) != Return(st)
    ensures ReadChunk(With(st, more)) == var next := With(ReadChunk(st).st, more);
                                         if next.status == End then Return(next) else Again(next)
    ensures ReadChunk(st).st.fields == st.fields && (ReadChunk(st).Again? ==> |ReadChunk(st).st.buf| < |st.buf|)
    ensures ReadChunk(st).st.status == End || ReadChunk(st).st.status == Body
    ensures ReadChunk(st).Return? ==> ReadChunk(st).st.status == End || ReadChunk(st).st.buf == ""
  {
    hide StrnStr, Strtoull, Trim;
    if size == 0 {
      LastChunkIsStable(st, more, sizeEnd);
    } else {
      hide ReadChunk, ChunkSize;
      ChunkCases(st, sizeEnd, size);
      ChunkIsStable(st, more, sizeEnd, size);
    }
  }

  lemma BodyCut(st: State, more: string)
    requires st.status == Body && more != "" && !Failed(Drive(st))
    ensures Drive(With(Drive(st), more)) == Drive(With(st, more)) <==> !BodyCutMatters(st, more)
  {
    hide IsChunked, IsConnectionClose, ContentLength, Drive;
    if IsChunked(st.fields) {
      ChunkedCut(st, more);
    } else {
      PlainBodyCut(st, more);
    }
  }

  /** Once in the body, what was read of the header stays. */
  lemma {:induction false} BodyKeepsHeader(st: State)
    requires st.status == Body
    ensures var r := Drive(st);
            r.fields == st.fields && r.headerLength == st.headerLength && r.firstLineLength == st.firstLineLength
            && r.mode == st.mode && r.request == st.request && r.response == st.response
            && (r.status == Body || r.status == BodyError || r.status == End)
    decreases |st.buf|
  {
    hide StrnStr, Strtoull, Trim, IsChunked, IsConnectionClose, ContentLength;
    if IsChunked(st.fields) && ReadChunk(st).Again? {
      PassOverChunkProgresses(st);
      BodyKeepsHeader(ReadChunk(st).st);
    }
  }

  predicate FieldsCutMatters(st: State, more: string) {
    ReadFields(st).Again? && BodyCutMatters(ReadFields(st).st, more)
  }

  lemma FieldsCut(st: State, more: string)
    requires st.status == HeaderFields && more != "" && !Failed(Drive(st))
    ensures Drive(With(Drive(st), more)) == Drive(With(st, more)) <==> !FieldsCutMatters(st, more)
  {
    hide ReadFields, BodyCutMatters;
    if ReadFields(st).Again? {
      FieldsAreStable(st, more);
      var next := ReadFields(st).st;
      FieldsTurn(st);
      assert Drive(st) == Drive(next);
      assert Drive(With(st, more)) == Drive(With(next, more));
      hide Drive;
      BodyCut(next, more);
    } else {
      FieldsTurn(st);
    }
  }

  lemma FieldsTurn(st: State)
    requires st.status == HeaderFields
    ensures ReadFields(st).Again? ==> ReadFields(st).st.status == Body && ReadFields(st).st.headerLength > 0
    ensures ReadFields(st).Return? ==> ReadFields(st).st == st || Failed(ReadFields(st).st)
    ensures ReadFields(st).Return? ==> ReadFields(st).st.status != Body && ReadFields(st).st.status != End
  {
  }

  /** The first line is directly followed by the blank line, but the cut lies before the end of that. */
  predicate SplitsBlankLine(st: State, more: string) {
    Headerless(st.buf + more) && !Headerless(st.buf)
  }

  predicate IsFirst(st: State) { st.status == Start || st.status == FirstLine }

  predicate FirstLineCutMatters(st: State, more: string) {
    var turn := ReadFirstLine(st);
    turn.Again? && (SplitsBlankLine(st, more)
                    || if turn.st.status == Body then BodyCutMatters(turn.st, more)
                       else FieldsCutMatters(turn.st, more))
  }

  lemma SplitBlankLine(st: State, more: string)
    requires IsFirst(st) && st.headerLength == 0
    requires ReadFirstLine(st).Again? && SplitsBlankLine(st, more)
    ensures var next := ReadFirstLine(st).st; var whole := ReadFirstLine(With(st, more));
            next.status == HeaderFields && ReadFields(next) == Return(next)
            && whole.Again? && whole.st.status == Body && whole.st.headerLength == 0
  {
    hide StrnStr, StatusFromString, RequestFromString;
    var buf := st.buf + more;
    FoundIsStable(st.buf, more, CRLF);
    var pos := StrnStr(st.buf, CRLF).value;
    assert buf[..pos + 2] == st.buf[..pos + 2];
    if |st.buf| >= pos + 4 {
      StrnStrIsFirst(buf, BLANK, pos);
      assert st.buf + more == buf;
      assert forall j :: 0 <= j <= pos ==> (At(st.buf, BLANK, j) <==> At(buf, BLANK, j)) by {
        forall j | 0 <= j <= pos ensures At(st.buf, BLANK, j) <==> At(buf, BLANK, j) {
          AtPrefix(st.buf, more, BLANK, j);
        }
      }
      assert st.buf[..pos + 4] == buf[..pos + 4];
      StrnStrIsFirst(st.buf, BLANK, pos);
      assert false;
    }
  }

  /** A header that has been read shows in its length. */
  lemma LateHeader(st: State)
    requires st.status == HeaderFields
    ensures var r := Drive(st);
            if r.status == Body || r.status == BodyError || r.status == End then r.headerLength > 0
            else r.status == HeaderFields || r.status == HeaderFieldsError
  {
    FieldsTurn(st);
    FieldsOutcome(st);
    hide ReadFields, ReadChunk, ReadBody, Drive;
    DriveStep(st);
    if ReadFields(st).Again? {
      BodyKeepsHeader(ReadFields(st).st);
    }
  }

  lemma FieldsOutcome(st: State)
    requires st.status == HeaderFields
    ensures ReadFields(st).Return? ==> ReadFields(st).st.status == HeaderFields
                                       || ReadFields(st).st.status == HeaderFieldsError
  {
  }

  lemma SplitBlankLineShows(st: State, more: string)
    requires IsFirst(st) && st.headerLength == 0
    requires ReadFirstLine(st).Again? && SplitsBlankLine(st, more) && !Failed(Drive(st))
    ensures Drive(With(Drive(st), more)) != Drive(With(st, more))
  {
    hide ReadFirstLine, ReadFields, ReadChunk, ReadBody, Drive, SplitsBlankLine;
    SplitBlankLine(st, more);
    DriveStep(st);
    DriveStep(ReadFirstLine(st).st);
    LateHeader(With(ReadFirstLine(st).st, more));
    DriveStep(With(st, more));
    BodyKeepsHeader(ReadFirstLine(With(st, more)).st);
  }

  lemma FirstLineCut(st: State, more: string)
    requires IsFirst(st) && st.headerLength == 0 && more != "" && !Failed(Drive(st))
    ensures Drive(With(Drive(st), more)) == Drive(With(st, more)) <==> !FirstLineCutMatters(st, more)
  {
    DriveStep(st);
    if ReadFirstLine(st).Return? {
      FirstLineAwaits(st);
      hide ReadFirstLine, Drive;
      StatusOfFirstLine(With(st, more));
      assert With(Drive(st), more) == With(st, more).(status := FirstLine);
    } else if SplitsBlankLine(st, more) {
      SplitBlankLineShows(st, more);
    } else {
      FirstLineTurn(st, more);
      FirstLineGoesOn(st, more);
    }
  }

  lemma FirstLineAwaits(st: State)
    requires IsFirst(st) && ReadFirstLine(st).Return?
    ensures Failed(ReadFirstLine(st).st) || ReadFirstLine(st).st == st.(status := FirstLine)
  {
    hide StrnStr, StatusFromString, RequestFromString;
  }

  lemma FirstLineGoesOn(st: State, more: string)
    requires IsFirst(st) && more != "" && !Failed(Drive(st))
    requires ReadFirstLine(st).Again? && !SplitsBlankLine(st, more)
    requires ReadFirstLine(With(st, more)) == Again(With(ReadFirstLine(st).st, more))
    ensures Drive(With(Drive(st), more)) == Drive(With(st, more)) <==> !FirstLineCutMatters(st, more)
  {
    hide ReadFirstLine, ReadFields, ReadChunk, ReadBody, Drive, SplitsBlankLine, FieldsCutMatters, BodyCutMatters;
    var next := ReadFirstLine(st).st;
    DriveStep(st);
    DriveStep(With(st, more));
    FirstLineTurn(st, more);
    if next.status == Body {
      BodyCut(next, more);
    } else {
      FieldsCut(next, more);
    }
  }

  lemma StatusOfFirstLine(st: State)
    requires IsFirst(st)
    ensures Drive(st.(status := FirstLine)) == Drive(st)
  {
    SameFirstLine(st);
    hide ReadFirstLine, Drive;
    DriveStep(st);
    DriveStep(st.(status := FirstLine));
  }

  lemma SameFirstLine(st: State)
    ensures ReadFirstLine(st.(status := FirstLine)) == ReadFirstLine(st)
  {
    hide StrnStr, StatusFromString, RequestFromString;
  }

  /** Also a headerless first line is stable once its blank line is there. */
  lemma FirstLineTurn(st: State, more: string)
    requires ReadFirstLine(st).Again? && !SplitsBlankLine(st, more)
    ensures ReadFirstLine(With(st, more)) == Again(With(ReadFirstLine(st).st, more))
    ensures ReadFirstLine(st).st.status == Body || ReadFirstLine(st).st.status == HeaderFields
  {
    hide StrnStr, StatusFromString, RequestFromString;
    if !Headerless(st.buf + more) {
      FirstLineIsStable(st, more);
    } else {
      FoundIsStable(st.buf, more, CRLF);
      FoundIsStable(st.buf, more, BLANK);
      var pos := StrnStr(st.buf, CRLF).value;
      assert (st.buf + more)[..pos + 2] == st.buf[..pos + 2];
      assert (st.buf + more)[pos + 4..] == st.buf[pos + 4..] + more;
    }
  }

  // ----- calls -----

  /** Whether st, about to read its buffer, ends up differently if more arrives only afterwards. */
  predicate CutMatters(st: State, more: string) {
    match st.status
    case Start => FirstLineCutMatters(st, more)
    case FirstLine => FirstLineCutMatters(st, more)
    case HeaderFields => FieldsCutMatters(st, more)
    case Body => BodyCutMatters(st, more)
    case _ => false
  }

  /** No header has been read before the first line. */
  predicate Consistent(st: State) { IsFirst(st) ==> st.headerLength == 0 }

  /**
   Looking at the contents of the buffer only, two calls do what one call with
   all their bytes does, for every state and every cut, exactly if the cut is in
   none of the corners.
   */
  lemma CutIndependence(st: State, first: string, second: string)
    requires !Failed(st) && Consistent(st) && first != "" && second != ""
    requires !Failed(Recv(st, first))
    ensures Recv(Recv(st, first), second) == Recv(st, first + second) <==> !CutMatters(With(st, first), second)
  {
    hide Drive, FirstLineCutMatters, FieldsCutMatters, BodyCutMatters;
    assert (st.buf + first) + second == st.buf + (first + second);
    DriveCut(With(st, first), second);
  }

  lemma DriveCut(st: State, more: string)
    requires !Failed(st) && Consistent(st) && more != "" && !Failed(Drive(st))
    ensures Drive(With(Drive(st), more)) == Drive(With(st, more)) <==> !CutMatters(st, more)
  {
    hide Drive, FirstLineCutMatters, FieldsCutMatters, BodyCutMatters;
    match st.status {
      case Start => FirstLineCut(st, more);
      case FirstLine => FirstLineCut(st, more);
      case HeaderFields => FieldsCut(st, more);
      case Body => BodyCut(st, more);
      case _ => EndStays(st, more);
    }
  }

  lemma EndStays(st: State, more: string)
    requires st.status == End
    ensures Drive(st) == st && Drive(With(st, more)) == With(st, more)
  {
  }

  lemma DriveKeepsConsistent(st: State)
    requires !Failed(st) && Consistent(st)
    ensures Consistent(Drive(st))
  {
    hide ReadFirstLine, ReadFields, ReadChunk, ReadBody, Drive;
    match st.status {
      case HeaderFields => LateHeader(st);
      case Body => BodyKeepsHeader(st);
      case End => DriveStep(st);
      case _ => FirstLineKeepsConsistent(st);
    }
  }

  lemma FirstLineKeepsConsistent(st: State)
    requires IsFirst(st) && Consistent(st)
    ensures Consistent(Drive(st))
  {
    hide ReadFirstLine, ReadFields, ReadChunk, ReadBody, Drive;
    DriveStep(st);
    if ReadFirstLine(st).Again? {
      FirstLineEnds(st);
      var next := ReadFirstLine(st).st;
      if next.status == Body { BodyKeepsHeader(next); } else { LateHeader(next); }
    } else {
      FirstLineAwaits(st);
    }
  }

  lemma FirstLineEnds(st: State)
    requires ReadFirstLine(st).Again?
    ensures ReadFirstLine(st).st.status == Body || ReadFirstLine(st).st.status == HeaderFields
    ensures ReadFirstLine(st).st.fields == st.fields && ReadFirstLine(st).st.body == st.body
  {
    hide StrnStr, StatusFromString, RequestFromString;
  }
}
