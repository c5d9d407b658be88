/**
 Messages of `native/mars/comm/http.cc`: what the builder writes is what a
 parser that looks at the contents of its buffer only reads, however it is cut.
 */
module HttpMessages {

  import opened Options
  import opened Strings
  import opened HttpText
  import opened Http
  import opened HttpCuts
  import opened HttpStreams
  import opened HttpLines
  import opened HttpFields

  /** A message's first line and header. */
  datatype Head = Head(mode: Mode, request: RequestLine, status: StatusLine, fields: Fields)

  /** A first line that can be read back. */
  ghost predicate GoodFirst(x: Head) {
    match x.mode
    case RequestMode => GoodRequest(x.request) && NUL !in x.request.url
    case RespondMode =>
      GoodStatus(x.status) && -0x8000_0000 <= x.status.code < 0x8000_0000 && NUL !in x.status.reason
  }

  ghost predicate GoodHead(x: Head) { GoodFirst(x) && GoodFields(x.fields) && x.fields != [] }

  function FirstText(x: Head): string
    requires x.request.verb < |METHODS| && x.request.version < |VERSIONS| && x.status.version < |VERSIONS|
  {
    match x.mode
    case RequestMode => RequestToString(x.request)
    case RespondMode => StatusToString(x.status)
  }

  predicate Known(x: Head) {
    x.request.verb < |METHODS| && x.request.version < |VERSIONS| && x.status.version < |VERSIONS|
  }

  function Message(x: Head, body: string): string
    requires Known(x)
  {
    FirstText(x) + (FieldsToString(x.fields) + (CRLF + body))
  }

  /** The parser after the first line, with the given buffer. */
  function AfterFirst(x: Head, buf: string): State
    requires Known(x)
  {
    State(HeaderFields, buf, x.mode,
          if x.mode == RequestMode then x.request else INITIAL.request,
          if x.mode == RespondMode then x.status else INITIAL.response, [], "", |FirstText(x)|, 0)
  }

  /** The parser after the header, with the given buffer. */
  function AfterHead(x: Head, buf: string): State
    requires Known(x)
  {
    AfterFirst(x, buf).(status := Body, fields := x.fields, headerLength := |FieldsToString(x.fields)| + 2)
  }

  // ----- the first line -----

  /** The first line is one line of the stream, and it is read as it was written. */
  lemma FirstLineText(x: Head) returns (line: string)
    requires Known(x) && GoodFirst(x)
    ensures FirstText(x) == line + CRLF && InLine(line)
    ensures if x.mode == RequestMode then
              !("HTTP/" <= FirstText(x)) && RequestFromString(FirstText(x)) == Some(x.request)
            else "HTTP/" <= FirstText(x) && StatusFromString(FirstText(x), INITIAL.response) == Some(x.status)
  {
    match x.mode {
      case RequestMode => line := RequestLineText(x.request);
      case RespondMode => line := StatusLineText(x.status);
    }
  }

  lemma RequestLineText(r: RequestLine) returns (line: string)
    requires GoodRequest(r) && NUL !in r.url
    ensures RequestToString(r) == line + CRLF && InLine(line)
    ensures !("HTTP/" <= RequestToString(r)) && RequestFromString(RequestToString(r)) == Some(r)
  {
    line := RequestText(r);
    RequestRoundTrip(r);
    RequestTokens(r);
    RequestTextEnds(r);
    MethodsAreWords(r.verb);
    VersionsAreWords(r.version);
    WordIsToken(METHODS[r.verb]);
    WordIsToken(VERSIONS[r.version]);
    NotAResponse(METHODS[r.verb], r.url + (" " + VERSIONS[r.version]) + CRLF);
  }

  lemma NotAResponse(m: string, rest: string)
    requires m != "" && (m[0] != 'H' || m == "HEAD")
    ensures !("HTTP/" <= m + (" " + rest))
  {
    var s := m + (" " + rest);
    assert s[0] == m[0];
    if m == "HEAD" {
      assert s[1] == 'E' && "HTTP/"[1] == 'T';
    }
  }

  lemma StatusLineText(s: StatusLine) returns (line: string)
    requires GoodStatus(s) && -0x8000_0000 <= s.code < 0x8000_0000 && NUL !in s.reason
    ensures StatusToString(s) == line + CRLF && InLine(line)
    ensures "HTTP/" <= StatusToString(s) && StatusFromString(StatusToString(s), INITIAL.response) == Some(s)
  {
    hide StatusFromString, Unbroken, Word;
    StatusRoundTrip(s, INITIAL.response);
    StatusTextEnds(s);
    var v, d := VERSIONS[s.version], Decimal(s.code);
    line := v + (" " + (d + (" " + s.reason)));
    VersionsAreWords(s.version);
    DecimalIsWord(s.code);
    WordIsToken(v);
    WordIsToken(d);
    NoCrIsUnbroken("");
    WordsInLine(d, s.reason);
    WordsInLine(v, d + (" " + s.reason));
  }

  // ----- reading the header -----

  lemma FirstLineFound(line: string, tail: string)
    requires InLine(line) && !(CRLF <= tail)
    ensures var buf := line + CRLF + tail;
            StrnStr(buf, CRLF) == Some(|line|) && StrnStr(buf, BLANK) != Some(|line|)
            && buf[..|line| + 2] == line + CRLF && buf[|line| + 2..] == tail
  {
    var buf := line + CRLF + tail;
    assert buf == line + (CRLF + tail);
    LineEnd(line, tail);
    StrnStrIsFirst(buf, BLANK, |line|);
    if At(buf, BLANK, |line|) {
      BlankAfterLine(line, tail);
    }
  }

  lemma BlankAfterLine(line: string, tail: string)
    requires At(line + CRLF + tail, BLANK, |line|)
    ensures CRLF <= tail
  {
    var buf := line + CRLF + tail;
    assert buf[|line|..|line| + 4][2..] == BLANK[2..];
    assert buf[|line| + 2..|line| + 4] == tail[..2];
  }

  lemma FirstRead(x: Head, tail: string)
    requires Known(x) && GoodFirst(x) && !(CRLF <= tail)
    ensures ReadFirstLine(With(INITIAL, FirstText(x) + tail)) == Again(AfterFirst(x, tail))
  {
    hide StrnStr, GoodFirst, RequestFromString, StatusFromString, FirstText, InLine;
    var line := FirstLineText(x);
    FirstLineFound(line, tail);
    var buf := line + CRLF + tail;
    assert With(INITIAL, FirstText(x) + tail).buf == buf;
  }

  /** A first line that has not arrived completely is waited for, up to 8 KiB. */
  lemma FirstAwaited(x: Head, k: nat)
    requires Known(x) && GoodFirst(x) && k < |FirstText(x)|
    ensures Drive(With(INITIAL, FirstText(x)[..k])).status ==
              if k > FIRST_LINE_LIMIT then FirstLineError else FirstLine
  {
    var line := FirstLineText(x);
    var text := line + CRLF;
    hide FirstText, ReadFields, ReadChunk, ReadBody;
    LineEnd(line, "");
    assert line + (CRLF + "") == text;
    StrnStrIsFirst(text, CRLF, |line|);
    NotYetFound(text, CRLF, |line|, k);
    assert With(INITIAL, text[..k]).buf == text[..k];
  }

  lemma HeadRead(x: Head, tail: string)
    requires Known(x) && GoodHead(x)
    ensures ReadFields(AfterFirst(x, FieldsToString(x.fields) + (CRLF + tail))) == Again(AfterHead(x, tail))
  {
    var h := x.fields;
    var text := FieldsToString(h);
    var buf := text + (CRLF + tail);
    hide ParseFields, FieldsToString, StrnStr, FirstAt, GoodField;
    BlankLineEnds(h, tail);
    StrnStrIsFirst(buf, BLANK, |text| - 2);
    HeadSliced(text, tail);
    assert [] + h == h;
    FieldsRoundTrip(h, []);
  }

  lemma HeadSliced(text: string, tail: string)
    ensures var buf := text + (CRLF + tail);
            buf[..|text| + 2] == text + CRLF && buf[|text| + 2..] == tail
  {
  }

  /** A header that has not arrived completely is waited for, up to 128 KiB. */
  lemma HeadAwaited(x: Head, k: nat)
    requires Known(x) && GoodHead(x) && k < |FieldsToString(x.fields)| + 2
    ensures var part := (FieldsToString(x.fields) + CRLF)[..k];
            ReadFields(AfterFirst(x, part)) ==
              Return(if k > FIELDS_LIMIT then AfterFirst(x, part).(status := HeaderFieldsError)
                     else AfterFirst(x, part))
  {
    var text := FieldsToString(x.fields);
    BlankLineEnds(x.fields, "");
    assert text + (CRLF + "") == text + CRLF;
    NotYetFound(text + CRLF, BLANK, |text| - 2, k);
  }

  lemma MessageStart(x: Head, body: string)
    requires Known(x) && GoodHead(x)
    ensures Drive(With(INITIAL, Message(x, body))) == Drive(AfterHead(x, body))
    ensures !Headerless(Message(x, body))
  {
    var tail := FieldsToString(x.fields) + (CRLF + body);
    FieldsStart(x.fields, CRLF + body);
    FirstRead(x, tail);
    MessageNotHeaderless(x, tail);
    HeadRead(x, body);
    hide ReadFirstLine, ReadFields, ReadChunk, ReadBody, Drive, GoodHead, FirstText, FieldsToString, Headerless;
    DriveStep(With(INITIAL, FirstText(x) + tail));
    DriveStep(AfterFirst(x, tail));
  }

  lemma MessageNotHeaderless(x: Head, tail: string)
    requires Known(x) && GoodHead(x) && !(CRLF <= tail)
    ensures !Headerless(FirstText(x) + tail)
  {
    hide StrnStr, GoodFirst, GoodFields, FirstText, InLine;
    var line := FirstLineText(x);
    FirstLineFound(line, tail);
  }

  // ----- every prefix of a message -----

  /** The bytes before the body. */
  function HeadLength(x: Head): nat
    requires Known(x)
  {
    |FirstText(x)| + (|FieldsToString(x.fields)| + 2)
  }

  lemma MessageSliced(first: string, text: string, body: string, k: nat)
    requires k < |first| + (|text| + (2 + |body|))
    ensures var m := first + (text + (CRLF + body)); var n := |first|; var e := n + |text| + 2;
            && (k < n ==> m[..k] == first[..k])
            && (n <= k < e ==> m[..k] == first + (text + CRLF)[..k - n])
            && (e <= k ==> m[..k] == first + (text + (CRLF + body[..k - e])))
  {
    var m := first + (text + (CRLF + body));
    assert m == first + (text + CRLF) + body;
  }

  lemma PrefixInHead(x: Head, part: string)
    requires Known(x) && GoodHead(x) && part <= FieldsToString(x.fields) + CRLF
    requires |part| < |FieldsToString(x.fields)| + 2
    ensures Drive(With(INITIAL, FirstText(x) + part)).status ==
              if |part| > FIELDS_LIMIT then HeaderFieldsError else HeaderFields
  {
    FieldsStart(x.fields, CRLF);
    assert part != "" ==> part[0] == (FieldsToString(x.fields) + CRLF)[0];
    FirstRead(x, part);
    HeadAwaited(x, |part|);
    assert (FieldsToString(x.fields) + CRLF)[..|part|] == part;
    hide ReadFirstLine, ReadFields, ReadChunk, ReadBody, Drive, GoodHead, FirstText, FieldsToString;
    DriveStep(With(INITIAL, FirstText(x) + part));
    DriveStep(AfterFirst(x, part));
  }

  /** Where the parser stands when k bytes of the message have arrived. */
  lemma PrefixState(x: Head, body: string, k: nat)
    requires Known(x) && GoodHead(x) && k < |Message(x, body)|
    ensures var r := Drive(With(INITIAL, Message(x, body)[..k])); var n := |FirstText(x)|;
            if k < n then r.status == if k > FIRST_LINE_LIMIT then FirstLineError else FirstLine
            else if k < HeadLength(x) then
              r.status == if k - n > FIELDS_LIMIT then HeaderFieldsError else HeaderFields
            else r == Drive(AfterHead(x, body[..k - HeadLength(x)]))
  {
    hide Drive, GoodFirst, GoodFields, FirstText, FieldsToString, AfterHead, AfterFirst;
    var text := FieldsToString(x.fields);
    var n := |FirstText(x)|;
    MessageSliced(FirstText(x), text, body, k);
    if k < n {
      FirstAwaited(x, k);
    } else if k < HeadLength(x) {
      PrefixInHead(x, (text + CRLF)[..k - n]);
    } else {
      MessageStart(x, body[..k - HeadLength(x)]);
    }
  }

  // ----- any fragmentation of a message -----

  /** How the body is read: to the end with all of it, and not before. */
  ghost predicate BodyReads(x: Head, body: string, done: State)
    requires Known(x)
  {
    && Drive(AfterHead(x, body)) == done && done.status == End
    && forall k :: 0 <= k < |body| ==> Drive(AfterHead(x, body[..k])).status == Body
  }

  /** However much of the body has arrived, no trailer waits for its end. */
  ghost predicate Untrailed(x: Head, body: string)
    requires Known(x)
  {
    forall k :: 0 <= k < |body| ==> !Open(Drive(AfterHead(x, body[..k])))
  }

  /** The parser's limits on what it buffers while it waits: 8 KiB of first line and 128 KiB of header. */
  predicate WithinLimits(x: Head)
    requires Known(x)
  {
    |FirstText(x)| - 1 <= 8 * 1024 && |FieldsToString(x.fields)| + 1 <= 128 * 1024
  }

  /** No proper prefix of a message ends it, and none is refused exactly if it is within the limits. */
  lemma PrefixesWait(x: Head, body: string, done: State)
    requires Known(x) && GoodHead(x) && BodyReads(x, body, done)
    ensures Unfailing(Message(x, body)) <==> WithinLimits(x)
    ensures forall k :: 0 < k < |Message(x, body)| ==> Recv(INITIAL, Message(x, body)[..k]).status != End
  {
    hide Drive, GoodHead, FirstText, FieldsToString, AfterHead, AfterFirst, BodyReads;
    var m := Message(x, body);
    var n, e := |FirstText(x)|, HeadLength(x);
    LengthOfMessage(x, body);
    forall k | 0 < k < |m|
      ensures Recv(INITIAL, m[..k]).status != End
      ensures Failed(Recv(INITIAL, m[..k])) <==> (k < n && k > FIRST_LINE_LIMIT) || (n <= k < e && k - n > FIELDS_LIMIT)
    {
      PrefixOutcome(x, body, done, k);
    }
    if Unfailing(m) {
      assert !Failed(Recv(INITIAL, m[..n - 1]));
      assert !Failed(Recv(INITIAL, m[..e - 1]));
    }
  }

  lemma LengthOfMessage(x: Head, body: string)
    requires Known(x) && GoodHead(x)
    ensures |Message(x, body)| == HeadLength(x) + |body| && |FirstText(x)| > 2
  {
    MethodsAreWords(x.request.verb);
    VersionsAreWords(x.status.version);
  }

  lemma PrefixOutcome(x: Head, body: string, done: State, k: nat)
    requires Known(x) && GoodHead(x) && BodyReads(x, body, done) && 0 < k < |Message(x, body)|
    ensures var r := Recv(INITIAL, Message(x, body)[..k]); var n, e := |FirstText(x)|, HeadLength(x);
            r.status != End
            && (Failed(r) <==> (k < n && k > FIRST_LINE_LIMIT) || (n <= k < e && k - n > FIELDS_LIMIT))
  {
    hide Drive, GoodHead, FirstText, FieldsToString, AfterHead, AfterFirst;
    PrefixState(x, body, k);
    InitialWith(Message(x, body)[..k]);
    LengthOfMessage(x, body);
  }

  lemma MessageSettles(x: Head, body: string, done: State)
    requires Known(x) && GoodHead(x) && WithinLimits(x)
    requires BodyReads(x, body, done) && !CloseDelimited(x.fields)
    ensures var m := Message(x, body); m != "" && Unfailing(m) && Delimited(m) && Recv(INITIAL, m) == done
  {
    hide Drive, GoodHead, FirstText, FieldsToString, AfterHead, AfterFirst, CloseDelimited, Headerless, Unfailing;
    PrefixesWait(x, body, done);
    MessageStart(x, body);
    LengthOfMessage(x, body);
    InitialWith(Message(x, body));
    BodyKeepsFields(x, body);
  }

  lemma BodyKeepsFields(x: Head, body: string)
    requires Known(x)
    ensures Drive(AfterHead(x, body)).fields == x.fields
  {
    BodyKeepsHeader(AfterHead(x, body));
  }

  lemma FirstPieces(pieces: seq<string>, n: nat, m: string)
    requires n < |pieces| && "" !in pieces && Join(pieces) == m
    requires m != "" && Unfailing(m) && Delimited(m)
    requires forall k :: 0 < k < |m| ==> Recv(INITIAL, m[..k]).status != End
    ensures Waits(pieces[..n])
  {
    hide Unfailing, Delimited, Recv, Feed, Join, Waits;
    var init, rest := pieces[..n], pieces[n..];
    if n == 0 {
      NothingWaits();
    } else {
      assert pieces == init + rest;
      JoinConcat(init, rest);
      NotYetDone(init, rest, m);
    }
  }

  lemma NothingWaits()
    ensures Waits([])
  {
  }

  lemma JoinNonempty(pieces: seq<string>)
    requires pieces != [] && "" !in pieces
    ensures Join(pieces) != ""
  {
    assert pieces[0] in pieces;
  }

  lemma NotYetDone(init: seq<string>, rest: seq<string>, m: string)
    requires init != [] && rest != [] && "" !in init && "" !in rest && m == Join(init) + Join(rest)
    requires m != "" && Unfailing(m) && Delimited(m)
    requires forall k :: 0 < k < |m| ==> Recv(INITIAL, m[..k]).status != End
    ensures Waits(init)
  {
    hide Unfailing, Delimited, Recv, Feed, Join;
    JoinNonempty(init);
    JoinNonempty(rest);
    var s := Join(init);
    assert m[..|s|] == s;
    UnfailingPrefix(s, Join(rest));
    PrefixDelimited(s, Join(rest));
    FragmentationIrrelevant(init);
  }

  /**
   A message in any pieces: such a parser is done exactly with the last one,
   and holds what was sent.
   */
  lemma AnyFragmentation(x: Head, body: string, done: State, pieces: seq<string>)
    requires Known(x) && GoodHead(x) && WithinLimits(x)
    requires BodyReads(x, body, done) && !CloseDelimited(x.fields)
    requires "" !in pieces && Join(pieces) == Message(x, body)
    ensures Feed(INITIAL, pieces) == done && NotBefore(pieces)
  {
    MessageSettles(x, body, done);
    PrefixesWait(x, body, done);
    EndsWithTheLast(pieces, Message(x, body));
  }

  /** The parser goes on waiting as long as pieces are missing. */
  ghost predicate NotBefore(pieces: seq<string>) {
    forall n :: 0 <= n < |pieces| ==> Waits(pieces[..n])
  }

  predicate Waits(pieces: seq<string>) {
    Feed(INITIAL, pieces).status != End && !Failed(Feed(INITIAL, pieces))
  }

  lemma EndsWithTheLast(pieces: seq<string>, m: string)
    requires "" !in pieces && Join(pieces) == m && m != "" && Unfailing(m) && Delimited(m)
    requires forall k :: 0 < k < |m| ==> Recv(INITIAL, m[..k]).status != End
    ensures Feed(INITIAL, pieces) == Recv(INITIAL, m) && NotBefore(pieces)
  {
    hide Recv, Feed, Unfailing, Delimited, Waits;
    FragmentationIrrelevant(pieces);
    forall n | 0 <= n < |pieces|
      ensures Waits(pieces[..n])
    {
      FirstPieces(pieces, n, m);
    }
  }

  // ----- first lines of any kind -----

  /** A first line that is a response if it starts like one, else a request, with words that are known. */
  predicate IsKnownLine(line: string) {
    var ts := Tokens(line, ' ');
    if "HTTP/" <= line then |ts| >= 2 && ts[0] in VERSIONS && ts[0] != "version_unknown"
    else |ts| >= 3 && ts[0] in METHODS && ts[0] != "UNKNOWN" && ts[2] in VERSIONS && ts[2] != "version_unknown"
  }

  lemma ResponseStarts(line: string)
    ensures "HTTP/" <= line + CRLF <==> "HTTP/" <= line
  {
    if |line| < 5 {
      assert (line + CRLF)[|line|] == CR;
    }
  }

  lemma BlankFollows(line: string, more: string)
    requires InLine(line)
    ensures StrnStr(line + (CRLF + more), BLANK) == Some(|line|) <==> CRLF <= more
  {
    hide StrnStr;
    var buf := line + (CRLF + more);
    FirstCrlf(line, more);
    StrnStrIsFirst(buf, BLANK, |line|);
    if CRLF <= more {
      assert more == CRLF + more[2..];
      assert buf == (line + BLANK) + more[2..];
      assert buf[..|line| + 4] == line + BLANK;
      NoBlankEarlier(buf, |line|);
    } else if At(buf, BLANK, |line|) {
      assert buf[|line|..|line| + 4][2..] == more[..2];
    }
  }

  lemma NoBlankEarlier(buf: string, n: nat)
    requires forall j :: 0 <= j < n ==> !At(buf, CRLF, j)
    ensures forall j :: 0 <= j < n ==> !At(buf, BLANK, j)
  {
    forall j | 0 <= j < n && At(buf, BLANK, j)
      ensures At(buf, CRLF, j)
    {
      assert buf[j..j + 4][..2] == CRLF;
    }
  }

  /**
   Every complete first line: it is an error exactly if it is not a known one.
   Otherwise it is taken off the buffer, and a blank line right behind it too,
   which leaves no header to read.
   */
  lemma FirstLineDecided(st: State, line: string, more: string)
    requires InLine(line) && st.buf == line + (CRLF + more)
    ensures var t := ReadFirstLine(st); var reply := "HTTP/" <= line;
            && t.st.fields == st.fields && t.st.body == st.body && t.st.headerLength == st.headerLength
            && if !IsKnownLine(line) then t.Return? && t.st.status == FirstLineError && t.st.buf == st.buf
               else
                 && t.Again? && t.st.firstLineLength == |line| + 2
                 && t.st.mode == (if reply then RespondMode else RequestMode)
                 && t.st.status == (if CRLF <= more then Body else HeaderFields)
                 && t.st.buf == (if CRLF <= more then more[2..] else more)
                 && (if reply then Some(t.st.response) == StatusFromString(line + CRLF, st.response)
                     else Some(t.st.request) == RequestFromString(line + CRLF))
  {
    hide StrnStr, StatusFromString, RequestFromString, StatusRefused, RequestRefused, InLine, Tokens, ReadFirstLine;
    FirstLineComplete(st, line, more);
    ResponseStarts(line);
    RequestDecided(line);
    StatusDecided(line, st.response);
  }

  lemma FirstLineComplete(st: State, line: string, more: string)
    requires InLine(line) && st.buf == line + (CRLF + more)
    ensures |line| + 2 <= |st.buf| && ReadFirstLine(st) == FirstLineAt(st, Some(|line|), StrnStr(st.buf, BLANK))
    ensures StrnStr(st.buf, BLANK) == Some(|line|) <==> CRLF <= more
    ensures st.buf[..|line| + 2] == line + CRLF && st.buf[|line| + 2..] == more
    ensures CRLF <= more ==> |line| + 4 <= |st.buf| && st.buf[|line| + 4..] == more[2..]
  {
    hide StrnStr, FirstLineAt, Unbroken;
    LineEnd(line, more);
    BlankFollows(line, more);
  }
}
