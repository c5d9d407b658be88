/**
 The two kinds of body `native/mars/comm/http.cc` writes: one of known length,
 and a stream of chunks.
 */
module HttpBodies {

  import opened Options
  import opened Sequences
  import opened Strings
  import opened HttpText
  import opened Http
  import opened HttpCuts
  import opened HttpStreams
  import opened HttpLines
  import opened HttpFields
  import opened HttpMessages

  /** The parser after the whole message. */
  function Finished(x: Head, body: string): State
    requires Known(x)
  {
    AfterHead(x, "").(status := End, body := body)
  }

  // ----- a body of known length -----

  /** What `(int)length` becomes as the 64-bit number that is written. */
  function CastLength(n: nat): (r: nat)
    ensures r <= ULLONG_MAX
    ensures r == n <==> n < 0x8000_0000 || (n % 0x1_0000_0000 >= 0x8000_0000 && n / 0x1_0000_0000 == 0xFFFF_FFFF)
  {
    var low := n % 0x1_0000_0000;
    if low < 0x8000_0000 then low else low + 0xFFFF_FFFF_0000_0000
  }

  /** `HttpToBuffer` adds the length of a block body to the header. */
  function WithLength(x: Head, body: string): Head {
    x.(fields := Put(x.fields, "Content-Length", Numeral(CastLength(|body|), 10)))
  }

  lemma NamesDiffer()
    ensures !SameNoCase("Content-Length", "Transfer-Encoding") && !SameNoCase("Transfer-Encoding", "Content-Length")
  {
    assert LowerChar('C') != LowerChar('T');
  }

  lemma NumeralText(n: nat, base: nat)
    requires 2 <= base <= 16
    ensures InLine(Numeral(n, base)) && Trimmed(Numeral(n, base))
  {
    NumeralIsWord(n, base);
    WordIsToken(Numeral(n, base));
  }

  lemma LengthIsGood(n: nat)
    ensures GoodField(("Content-Length", Numeral(n, 10)))
  {
    NumeralText(n, 10);
    NoCrIsUnbroken("Content-Length");
  }

  /** The header with the length in it. */
  lemma WithLengthReads(x: Head, body: string)
    requires GoodFirst(x) && GoodFields(x.fields)
    ensures var h := WithLength(x, body).fields;
            && GoodHead(WithLength(x, body)) && IsChunked(h) == IsChunked(x.fields)
            && ContentLength(h) == CastLength(|body|)
  {
    var n := CastLength(|body|);
    var h := Put(x.fields, "Content-Length", Numeral(n, 10));
    LengthIsGood(n);
    PutKeepsGood(x.fields, "Content-Length", Numeral(n, 10));
    GetAfterPut(x.fields, "Content-Length", Numeral(n, 10), "Transfer-Encoding");
    NamesDiffer();
    assert Numeral(n, 10) + "" == Numeral(n, 10);
    StrtoullRoundTrip(n, 10, "");
  }

  /** A body of the length its header says. */
  lemma SizedBodyReads(x: Head, body: string)
    requires Known(x) && !IsChunked(x.fields) && 0 < |body| == ContentLength(x.fields) <= MAX_LENGTH
    ensures BodyReads(x, body, Finished(x, body)) && !CloseDelimited(x.fields) && Untrailed(x, body)
  {
    hide IsChunked, ContentLength, IsConnectionClose, ReadBody;
    forall k | 0 <= k <= |body|
      ensures Drive(AfterHead(x, body[..k])) == (if k < |body| then AfterHead(x, "").(body := body[..k])
                                                 else Finished(x, body))
    {
      SizedBodySoFar(x, body, k);
    }
    assert body[..|body|] == body;
  }

  lemma SizedBodySoFar(x: Head, body: string, k: nat)
    requires Known(x) && !IsChunked(x.fields) && 0 < |body| == ContentLength(x.fields) <= MAX_LENGTH && k <= |body|
    ensures Drive(AfterHead(x, body[..k])) == (if k < |body| then AfterHead(x, "").(body := body[..k])
                                               else Finished(x, body))
  {
    hide IsChunked, ContentLength, IsConnectionClose, ReadBody;
    var part := body[..k];
    PlainCases(AfterHead(x, part));
    assert "" + part == part && part[..|part|] == part && part[|part|..] == "";
    if k == |body| {
      assert part == body;
    }
  }

  /**
   A block message of the builder is read back exactly if its length survives
   the cast to `int`.
   */
  lemma BlockMessageRoundTrip(x: Head, body: string)
    requires Known(x) && GoodFirst(x) && GoodFields(x.fields)
    requires body != "" && !IsChunked(x.fields)
    ensures var y := WithLength(x, body);
            Recv(INITIAL, Message(y, body)) == Finished(y, body) <==> |body| < 0x8000_0000
  {
    var y := WithLength(x, body);
    WithLengthReads(x, body);
    MessageStart(y, body);
    LengthOfMessage(y, body);
    InitialWith(Message(y, body));
    hide IsChunked, ContentLength, IsConnectionClose, ReadBody, Drive, GoodHead, Message, WithLength;
    if |body| < 0x8000_0000 {
      SizedBodyReads(y, body);
    } else {
      WrongLengthShows(y, body);
    }
  }

  lemma WrongLengthShows(x: Head, body: string)
    requires Known(x) && !IsChunked(x.fields) && body != ""
    requires ContentLength(x.fields) != |body| || ContentLength(x.fields) > MAX_LENGTH
    ensures Drive(AfterHead(x, body)) != Finished(x, body)
  {
    hide IsChunked, ContentLength, IsConnectionClose, ReadBody;
    PlainCases(AfterHead(x, body));
  }

  // ----- a stream of chunks -----

  /** A chunk with its size line as it was written. */
  datatype Chunk = Chunk(line: string, data: string)

  /** A size line, which may hold whitespace, zeros, digits of either case and an extension behind them. */
  ghost predicate Says(line: string, n: nat) { InLine(line) && Strtoull(Trim(line), 16) == n }

  ghost predicate IsChunk(c: Chunk) { 0 < |c.data| <= 0x1_0000_0000 && Says(c.line, |c.data|) }

  ghost predicate AreChunks(chunks: seq<Chunk>) { forall i :: 0 <= i < |chunks| ==> IsChunk(chunks[i]) }

  function Frame(c: Chunk): string { c.line + (CRLF + (c.data + CRLF)) }

  /** The chunks, and the size line of the last one without data. */
  function ChunkText(chunks: seq<Chunk>, last: string): string {
    if chunks == [] then last + BLANK else Frame(chunks[0]) + ChunkText(chunks[1..], last)
  }

  function DataOf(chunks: seq<Chunk>): string {
    if chunks == [] then "" else chunks[0].data + DataOf(chunks[1..])
  }

  /** Hexadecimal digits in either case, whitespace and zeros in front, whitespace or an extension behind. */
  lemma SizeSaid(gap: string, digits: string, ds: seq<nat>, rest: string, after: string)
    requires IsGap(gap) && digits != "" && Spells(digits, ds, 16) && NoMoreDigits(rest, 16) && IsGap(after)
    requires Trimmed(digits + rest) && InLine(gap + ((digits + rest) + after)) && Positional(ds, 16) <= ULLONG_MAX
    ensures Says(gap + ((digits + rest) + after), Positional(ds, 16))
  {
    hide Strtoull, Trim, InLine, Spells, Positional;
    TrimGaps(gap, digits + rest, after);
    SpelledNumber("", digits, ds, 16, rest);
    assert "" + (digits + rest) == digits + rest;
  }

  /** The size line at the head of the buffer. */
  lemma LineAhead(st: State, line: string, more: string, n: nat)
    requires Says(line, n) && st.buf == line + (CRLF + more)
    ensures ChunkSize(st, |line|, n) && st.buf[|line| + 2..] == more
  {
    hide Strtoull, StrnStr, Trim, Unbroken;
    LineEnd(line, more);
    assert st.buf[..|line|] == line;
  }

  lemma FrameAhead(st: State, c: Chunk, n: nat)
    requires IsChunk(c) && |c.line| + 2 <= n <= |Frame(c)| && n <= |st.buf| && st.buf[..n] == Frame(c)[..n]
    ensures ChunkSize(st, |c.line|, |c.data|)
  {
    hide Says, ChunkSize;
    var text := c.line + CRLF;
    assert Frame(c)[..|text|] == text;
    assert st.buf[..|text|] == st.buf[..n][..|text|] == Frame(c)[..n][..|text|] == Frame(c)[..|text|];
    assert st.buf == text + st.buf[|text|..] == c.line + (CRLF + st.buf[|text|..]);
    LineAhead(st, c.line, st.buf[|text|..], |c.data|);
  }

  /** A chunk that has arrived is delivered. */
  lemma FrameRead(st: State, c: Chunk, rest: string)
    requires IsChunk(c) && st.buf == Frame(c) + rest
    ensures ReadChunk(st) == var next := st.(body := st.body + c.data, buf := rest);
                             if rest == "" then Return(next) else Again(next)
  {
    hide ReadChunk, ChunkSize, Says;
    FrameStarts(st.buf, c, rest);
    FrameAhead(st, c, |Frame(c)|);
    FrameParts(st.buf, c.line, c.data, rest);
    ChunkCases(st, |c.line|, |c.data|);
  }

  lemma FrameStarts(buf: string, c: Chunk, rest: string)
    requires buf == Frame(c) + rest
    ensures |Frame(c)| <= |buf| && buf[..|Frame(c)|] == Frame(c)[..|Frame(c)|]
    ensures |Frame(c)| == |c.line| + |c.data| + 4
  {
  }

  lemma FrameParts(buf: string, line: string, data: string, rest: string)
    requires buf == line + (CRLF + (data + CRLF)) + rest
    ensures var b := |line| + 2; var e := b + |data|;
            e + 2 <= |buf| && buf[b..e] == data && buf[e..e + 2] == CRLF && buf[e + 2..] == rest
  {
    assert buf == (line + CRLF) + (data + (CRLF + rest));
  }

  /** One that has not is waited for. */
  lemma FrameAwaited(st: State, c: Chunk, k: nat)
    requires IsChunk(c) && k < |Frame(c)| && st.buf == Frame(c)[..k]
    ensures ReadChunk(st) == Return(st) && !Open(st)
  {
    hide Frame, ChunkSize, ReadChunk, Open, Says;
    FrameStarts(Frame(c) + "", c, "");
    if k < |c.line| + 2 {
      FrameParted(c);
      LineAwaited(st, c.line, |c.data|, c.data + CRLF, k);
    } else {
      FrameAhead(st, c, k);
      ChunkCases(st, |c.line|, |c.data|);
      SizedChunkNotOpen(st, |c.line|, |c.data|);
    }
  }

  lemma FrameParted(c: Chunk)
    ensures Frame(c) == c.line + (CRLF + (c.data + CRLF))
  {
  }

  lemma SizedChunkNotOpen(st: State, sizeEnd: nat, size: nat)
    requires ChunkSize(st, sizeEnd, size) && size != 0
    ensures !Open(st)
  {
  }

  lemma LineAwaited(st: State, line: string, n: nat, more: string, k: nat)
    requires Says(line, n) && k < |line| + 2 && st.buf == (line + (CRLF + more))[..k]
    ensures ReadChunk(st) == Return(st) && !Open(st)
  {
    hide StrnStr, FirstAt, InLine, Strtoull, Trim;
    var text := line + (CRLF + more);
    LineHasNoNul(line);
    LineEnd(line, more);
    StrnStrIsFirst(text, CRLF, |line|);
    NotYetFound(text, CRLF, |line|, k);
  }

  lemma LineHasNoNul(s: string)
    requires InLine(s)
    ensures Unbroken(s) && NUL !in s
  {
  }

  /** The last chunk with one line of trailer, which may be empty. */
  lemma LastChunkRead(st: State, last: string, line: string, rest: string)
    requires Says(last, 0) && InLine(line) && st.buf == last + (CRLF + (line + (CRLF + rest)))
    ensures ReadChunk(st) == Return(st.(status := End, buf := rest))
  {
    hide ReadChunk, ChunkSize, StrnStr, Unbroken, Says, InLine;
    var more := line + (CRLF + rest);
    LineAhead(st, last, more, 0);
    assert StrnStr(more, CRLF) == Some(|line|) by {
      LineHasNoNul(line);
      LineEnd(line, rest);
    }
    LineBehind(last, line, rest);
    LastChunkAt(st, |last|, |line|);
  }

  lemma LineBehind(last: string, line: string, rest: string)
    ensures (last + (CRLF + (line + (CRLF + rest))))[|last| + 2 + |line| + 2..] == rest
  {
    assert last + (CRLF + (line + (CRLF + rest))) == (last + CRLF + line + CRLF) + rest;
  }

  lemma LastChunkAt(st: State, sizeEnd: nat, trailerEnd: nat)
    requires ChunkSize(st, sizeEnd, 0) && sizeEnd + 2 <= |st.buf|
    requires StrnStr(st.buf[sizeEnd + 2..], CRLF) == Some(trailerEnd)
    ensures sizeEnd + 2 + trailerEnd + 2 <= |st.buf|
    ensures ReadChunk(st) == Return(st.(status := End, buf := st.buf[sizeEnd + 2 + trailerEnd + 2..]))
  {
    hide Strtoull, StrnStr, Trim;
  }

  lemma EofRead(st: State, last: string)
    requires Says(last, 0) && st.buf == last + BLANK
    ensures ReadChunk(st) == Return(st.(status := End, buf := ""))
  {
    hide ReadChunk, Says;
    NoCrIsUnbroken("");
    assert BLANK == CRLF + ("" + (CRLF + ""));
    LastChunkRead(st, last, "", "");
  }

  lemma EofAwaited(st: State, last: string, k: nat)
    requires Says(last, 0) && k < |last| + 4 && st.buf == (last + BLANK)[..k]
    ensures ReadChunk(st) == Return(st) && !Open(st)
  {
    hide Strtoull, StrnStr, Trim, Says;
    assert BLANK == CRLF + CRLF;
    if k < |last| + 2 {
      LineAwaited(st, last, 0, CRLF, k);
    } else {
      var part := BLANK[2..k - |last|];
      assert st.buf == last + (CRLF + part);
      LineAhead(st, last, part, 0);
    }
  }

  /** The whole stream is delivered as the concatenation of its chunks. */
  lemma {:induction false} ChunksRead(st: State, chunks: seq<Chunk>, last: string)
    requires st.status == Body && IsChunked(st.fields) && AreChunks(chunks) && Says(last, 0)
    requires st.buf == ChunkText(chunks, last)
    ensures Drive(st) == st.(status := End, body := st.body + DataOf(chunks), buf := "")
    decreases |chunks|
  {
    hide IsChunked, ReadChunk, Drive, Frame, IsChunk, Says;
    DriveStep(st);
    if chunks == [] {
      EofRead(st, last);
      assert st.body + "" == st.body;
    } else {
      var c := chunks[0];
      var rest := ChunkText(chunks[1..], last);
      FrameRead(st, c, rest);
      TextNonempty(chunks[1..], last);
      ChunksRead(st.(body := st.body + c.data, buf := rest), chunks[1..], last);
      Reassociate(st.body, c.data, DataOf(chunks[1..]));
    }
  }

  lemma EmptyNotOpen(st: State)
    requires st.buf == ""
    ensures !Open(st)
  {
  }

  lemma TextNonempty(chunks: seq<Chunk>, last: string)
    ensures ChunkText(chunks, last) != ""
  {
  }

  /** As long as a byte of it is missing, the parser waits, and never for the end of a trailer. */
  lemma {:induction false} ChunksAwaited(st: State, chunks: seq<Chunk>, last: string, k: nat)
    requires st.status == Body && IsChunked(st.fields) && AreChunks(chunks) && Says(last, 0)
    requires k < |ChunkText(chunks, last)| && st.buf == ChunkText(chunks, last)[..k]
    ensures Drive(st).status == Body && !Open(Drive(st))
    decreases |chunks|
  {
    hide IsChunked, ReadChunk, Drive, Frame, Open, IsChunk, Says;
    DriveStep(st);
    if chunks == [] {
      EofAwaited(st, last, k);
    } else {
      var c := chunks[0];
      var text := ChunkText(chunks[1..], last);
      if k < |Frame(c)| {
        assert st.buf == Frame(c)[..k];
        FrameAwaited(st, c, k);
      } else {
        var rest := text[..k - |Frame(c)|];
        assert st.buf == Frame(c) + rest;
        FrameRead(st, c, rest);
        if rest == "" {
          EmptyNotOpen(st.(body := st.body + c.data, buf := rest));
        } else {
          ChunksAwaited(st.(body := st.body + c.data, buf := rest), chunks[1..], last, k - |Frame(c)|);
        }
      }
    }
  }

  /** A size beyond 4 GiB, and data not followed by CRLF, are refused. */
  lemma BadChunkRefused(st: State, line: string, n: nat, more: string)
    requires Says(line, n) && st.buf == line + (CRLF + more)
    requires n > 0x1_0000_0000 || (0 < n && n + 2 <= |more| && more[n..n + 2] != CRLF)
    ensures ReadChunk(st).Return? && ReadChunk(st).st.status == BodyError
  {
    hide Strtoull, StrnStr, Trim;
    LineAhead(st, line, more, n);
    if n <= MAX_LENGTH {
      assert st.buf[|line| + 2 + n..|line| + 2 + n + 2] == more[n..n + 2];
    }
  }

  // ----- the chunks the builder writes -----

  const EOF_DATA: string := "0\r\n\r\n"

  /** `AppendHeader`, the data, `AppendTail`; the length is cast to 32 bits. */
  function BuiltChunk(data: string): Chunk { Chunk(Numeral(|data| % 0x1_0000_0000, 16), data) }

  function BuiltChunks(datas: seq<string>): seq<Chunk> {
    if datas == [] then [] else [BuiltChunk(datas[0])] + BuiltChunks(datas[1..])
  }

  predicate CanBuild(data: string) { 0 < |data| < 0x1_0000_0000 }

  /** What the builder writes is a chunk exactly if the data is shorter than 4 GiB. */
  lemma BuiltIsChunk(data: string)
    ensures IsChunk(BuiltChunk(data)) <==> CanBuild(data)
  {
    hide Numeral, Strtoull, Trim;
    var n := |data| % 0x1_0000_0000;
    var num := Numeral(n, 16);
    NumeralText(n, 16);
    TrimOfTrimmed(num);
    assert num + "" == num;
    StrtoullRoundTrip(n, 16, "");
  }

  lemma {:induction false} BuiltAreChunks(datas: seq<string>)
    requires forall i :: 0 <= i < |datas| ==> CanBuild(datas[i])
    ensures AreChunks(BuiltChunks(datas)) && DataOf(BuiltChunks(datas)) == Concat(datas)
    decreases |datas|
  {
    hide IsChunk;
    if datas != [] {
      BuiltIsChunk(datas[0]);
      BuiltAreChunks(datas[1..]);
      assert BuiltChunks(datas)[1..] == BuiltChunks(datas[1..]);
    }
  }

  lemma EofSaysZero()
    ensures Says("0", 0) && "0" + BLANK == EOF_DATA
  {
    hide Strtoull, Trim;
    var zero := Numeral(0, 16);
    NumeralText(0, 16);
    TrimOfTrimmed(zero);
    assert zero == "0" && zero + "" == zero;
    StrtoullRoundTrip(0, 16, "");
  }

  /** `HttpToBuffer` announces a stream body as chunked. */
  function WithChunks(x: Head): Head {
    x.(fields := Put(x.fields, "Transfer-Encoding", "chunked"))
  }

  lemma WithChunksReads(x: Head)
    requires GoodFirst(x) && GoodFields(x.fields)
    ensures GoodHead(WithChunks(x)) && IsChunked(WithChunks(x).fields)
  {
    NoCrIsUnbroken("Transfer-Encoding");
    NoCrIsUnbroken("chunked");
    PutKeepsGood(x.fields, "Transfer-Encoding", "chunked");
    GetAfterPut(x.fields, "Transfer-Encoding", "chunked", "");
    LessIsAsymmetric("chunked", "chunked");
  }

  lemma ChunkedBodyReads(x: Head, chunks: seq<Chunk>, last: string)
    requires Known(x) && IsChunked(x.fields) && AreChunks(chunks) && Says(last, 0)
    ensures BodyReads(x, ChunkText(chunks, last), Finished(x, DataOf(chunks))) && !CloseDelimited(x.fields)
    ensures Untrailed(x, ChunkText(chunks, last))
  {
    hide IsChunked, Drive, ChunkText, AreChunks, Open, Says;
    var text := ChunkText(chunks, last);
    ChunksRead(AfterHead(x, text), chunks, last);
    assert "" + DataOf(chunks) == DataOf(chunks);
    forall k | 0 <= k < |text|
      ensures Drive(AfterHead(x, text[..k])).status == Body && !Open(Drive(AfterHead(x, text[..k])))
    {
      ChunksAwaited(AfterHead(x, text[..k]), chunks, last, k);
    }
  }

  // ----- the builder -----

  /** What the builder was given to send: a block, or what a stream provider has ready. */
  datatype Content = NoContent | Block(data: string) | Stream(data: string)

  /** The header as the builder completes it. */
  function Completed(x: Head, content: Content): Head {
    match content
    case NoContent => x
    case Block(data) => if data == "" then x else WithLength(x, data)
    case Stream(_) => WithChunks(x)
  }

  /** What `HttpToBuffer` writes; nothing and failure without any field. */
  function Output(x: Head, content: Content): Option<string>
    requires Known(x)
  {
    var y := Completed(x, content);
    match content
    case NoContent => if x.fields == [] then None else Some(Message(y, ""))
    case Block(data) => if data == "" then Some("") else Some(Message(y, data))
    case Stream(data) => Some(Message(y, data))
  }

  /**
   What is written: nothing without a body and any field, or for an empty block;
   else the message, announced by its length or as chunks, all other fields as
   they were.
   */
  lemma OutputDecided(x: Head, content: Content, other: string)
    requires Known(x)
    ensures Output(x, content) == None <==> content == NoContent && x.fields == []
    ensures Output(x, content) == Some("") <==> content == Block("")
    ensures var y := Completed(x, content);
            && y.mode == x.mode && y.request == x.request && y.status == x.status
            && (content.Block? && content.data != "" ==>
                  && Output(x, content) == Some(Message(y, content.data))
                  && ContentLength(y.fields) == CastLength(|content.data|)
                  && (!Alike(other, "Content-Length") ==> Get(y.fields, other) == Get(x.fields, other)))
            && (content.Stream? ==>
                  && Output(x, content) == Some(Message(y, content.data)) && IsChunked(y.fields)
                  && (!Alike(other, "Transfer-Encoding") ==> Get(y.fields, other) == Get(x.fields, other)))
            && (content.NoContent? && x.fields != [] ==> y == x && Output(x, content) == Some(Message(x, "")))
  {
    hide FirstText, FieldsToString, Numeral, Strtoull, Put, Get, Alike;
    var y := Completed(x, content);
    FirstTextNonempty(y);
    match content {
      case NoContent =>
      case Block(data) =>
        var n := Numeral(CastLength(|data|), 10);
        GetAfterPut(x.fields, "Content-Length", n, other);
        assert n + "" == n;
        StrtoullRoundTrip(CastLength(|data|), 10, "");
        SameNoCaseIsAlike(other, "Content-Length");
        SameBothWays(other, "Content-Length");
      case Stream(_) =>
        GetAfterPut(x.fields, "Transfer-Encoding", "chunked", other);
        LessIsAsymmetric("chunked", "chunked");
        SameNoCaseIsAlike(other, "Transfer-Encoding");
        SameBothWays(other, "Transfer-Encoding");
    }
  }

  lemma FirstTextNonempty(x: Head)
    requires Known(x)
    ensures FirstText(x) != ""
  {
    MethodsAreWords(x.request.verb);
    VersionsAreWords(x.status.version);
  }

  // ----- the corners in which the cut matters -----

  lemma TooShortForBlank(s: string)
    requires |s| < 4
    ensures StrnStr(s, BLANK) == None
  {
  }

  lemma AwaitsFields(x: Head, buf: string)
    requires Known(x) && |buf| < 4
    ensures Drive(AfterFirst(x, buf)) == AfterFirst(x, buf)
  {
    TooShortForBlank(buf);
    assert ReadFields(AfterFirst(x, buf)) == Return(AfterFirst(x, buf));
    hide ReadFields, Drive;
    DriveStep(AfterFirst(x, buf));
  }

  lemma WaitsForFields(x: Head)
    requires Known(x) && GoodFirst(x)
    ensures Recv(INITIAL, FirstText(x)) == AfterFirst(x, "") && Recv(AfterFirst(x, ""), CRLF) == AfterFirst(x, CRLF)
  {
    FirstRead(x, "");
    NonemptyFirst(x);
    hide ReadFirstLine, FirstText, Drive, GoodFirst;
    assert FirstText(x) + "" == FirstText(x) && "" + CRLF == CRLF;
    InitialWith(FirstText(x));
    DriveStep(With(INITIAL, FirstText(x)));
    AwaitsFields(x, "");
    AwaitsFields(x, CRLF);
    assert With(AfterFirst(x, ""), CRLF) == AfterFirst(x, CRLF);
  }

  lemma NonemptyFirst(x: Head)
    requires Known(x) && GoodFirst(x)
    ensures FirstText(x) != ""
  {
    var line := FirstLineText(x);
  }

  lemma HeaderlessRead(x: Head)
    requires Known(x) && GoodFirst(x)
    ensures ReadFirstLine(With(INITIAL, FirstText(x) + CRLF)) == Again(AfterFirst(x, "").(status := Body))
  {
    hide StrnStr, GoodFirst, RequestFromString, StatusFromString, FirstText, InLine;
    var line := FirstLineText(x);
    HeaderlessFound(line);
    var buf := line + CRLF + CRLF;
    assert With(INITIAL, FirstText(x) + CRLF).buf == buf;
  }

  lemma HeaderlessWhole(x: Head)
    requires Known(x) && GoodFirst(x)
    ensures Recv(INITIAL, FirstText(x) + CRLF).status == End
  {
    HeaderlessRead(x);
    hide ReadFirstLine, ReadFields, FirstText, ReadBody, ReadChunk, Drive;
    InitialWith(FirstText(x) + CRLF);
    DriveStep(With(INITIAL, FirstText(x) + CRLF));
    EmptyBodyEnds(AfterFirst(x, "").(status := Body));
  }

  lemma EmptyBodyEnds(st: State)
    requires st.status == Body && st.buf == "" && st.body == "" && st.fields == []
    ensures Drive(st).status == End
  {
    hide ReadFirstLine, ReadFields, ReadBody, ReadChunk;
    PlainCases(st);
    NoFieldsAtAll();
  }

  lemma NoFieldsAtAll()
    ensures !IsChunked([]) && !IsConnectionClose([]) && ContentLength([]) == 0
  {
  }

  lemma HeaderlessFound(line: string)
    requires InLine(line)
    ensures var buf := line + CRLF + CRLF;
            StrnStr(buf, CRLF) == Some(|line|) && StrnStr(buf, BLANK) == Some(|line|)
            && buf[..|line| + 2] == line + CRLF && buf[|line| + 4..] == ""
  {
    var buf := line + CRLF + CRLF;
    LastLineEnds(line, "");
    assert buf == line + (CRLF + CRLF) == line + (CRLF + (CRLF + ""));
    LineEnd(line, CRLF);
    StrnStrIsFirst(buf, BLANK, |line|);
  }

  lemma CloseDelimitedRead(x: Head, body: string)
    requires Known(x) && CloseDelimited(x.fields) && |body| <= MAX_LENGTH
    ensures Drive(AfterHead(x, body)) == AfterHead(x, "").(body := body, status := if body == "" then End else Body)
  {
    hide IsChunked, IsConnectionClose, ContentLength, ReadBody;
    PlainCases(AfterHead(x, body));
    assert "" + body == body && body[..|body|] == body;
  }
}
