/**
 What holds of `Parser::Recv` in `native/mars/comm/http.cc` with the searches it
 makes: when it matters how a stream is cut into calls, and what is read of the
 builder's messages.
 */
module HttpCode {

  import opened Options
  import opened Strings
  import opened HttpText
  import opened Http
  import opened HttpCuts
  import opened HttpStreams
  import opened HttpFields
  import opened HttpLines
  import opened HttpMessages
  import opened HttpBodies
  import opened HttpInts

  // ----- one cut -----

  /** No state in which a trailer could wait. */
  predicate Unchunked(st: State) { !IsChunked(st.fields) }

  lemma ClosedBodyShows(st: State, entry: State, more: string)
    requires entry.status == Body && CloseDelimited(entry.fields)
    requires !Failed(st) && !Failed(Drive(st)) && Drive(st) == Drive(entry)
    requires Drive(With(st, more)) == Drive(With(entry, more))
    ensures Unchunked(Drive(st)) && Unchunked(Drive(With(Drive(st), more))) && Unchunked(Drive(With(st, more)))
  {
    hide Drive, IsChunked, IsConnectionClose, ContentLength;
    BodyKeepsHeader(entry);
    BodyKeepsHeader(With(entry, more));
    var r := Drive(st);
    if r.status == Body {
      BodyKeepsHeader(With(r, more));
    } else {
      EndStays(r, more);
    }
  }

  lemma FieldsCutShows(st: State, more: string)
    requires st.status == HeaderFields && !Failed(Drive(st)) && FieldsCutMatters(st, more)
    ensures Unchunked(Drive(st)) && Unchunked(Drive(With(Drive(st), more))) && Unchunked(Drive(With(st, more)))
  {
    hide Drive, ReadFields, ReadChunk, ReadBody, CloseDelimited, IsChunked;
    FieldsAreStable(st, more);
    FieldsTurn(st);
    DriveStep(st);
    DriveStep(With(st, more));
    ClosedBodyShows(st, ReadFields(st).st, more);
  }

  /** The blank line was cut from the first line: the parser stays in the header, which the whole never enters. */
  predicate HeaderMissed(cut: State, later: State, whole: State) {
    && cut.status == HeaderFields && whole.headerLength == 0
    && if later.status == Body || later.status == End then later.headerLength > 0 else true
  }

  lemma FirstLineCutShows(st: State, more: string)
    requires IsFirst(st) && st.headerLength == 0 && !Failed(Drive(st)) && FirstLineCutMatters(st, more)
    ensures HeaderMissed(Drive(st), Drive(With(Drive(st), more)), Drive(With(st, more)))
            || (Unchunked(Drive(st)) && Unchunked(Drive(With(Drive(st), more))) && Unchunked(Drive(With(st, more))))
  {
    hide Drive, ReadFirstLine, ReadFields, ReadChunk, ReadBody, IsChunked, SplitsBlankLine, FieldsCutMatters,
      BodyCutMatters;
    var next := ReadFirstLine(st).st;
    DriveStep(st);
    DriveStep(With(st, more));
    if SplitsBlankLine(st, more) {
      SplitBlankLine(st, more);
      DriveStep(next);
      LateHeader(With(next, more));
      BodyKeepsHeader(ReadFirstLine(With(st, more)).st);
    } else {
      FirstLineTurn(st, more);
      if next.status == Body {
        BodyCutCloses(next, more);
        ClosedBodyShows(st, next, more);
      } else {
        FieldsCutShows(next, more);
      }
    }
  }

  lemma BodyCutCloses(st: State, more: string)
    requires BodyCutMatters(st, more)
    ensures CloseDelimited(st.fields)
  {
  }

  /** Wherever the cut matters to a parser that looks at its contents only, no trailer is involved. */
  lemma CutShows(st: State, more: string)
    requires !Failed(st) && Consistent(st) && !Failed(Drive(st)) && CutMatters(st, more)
    ensures HeaderMissed(Drive(st), Drive(With(Drive(st), more)), Drive(With(st, more)))
            || (Unchunked(Drive(st)) && Unchunked(Drive(With(Drive(st), more))) && Unchunked(Drive(With(st, more))))
  {
    hide Drive, FirstLineCutMatters, FieldsCutMatters, CloseDelimited, IsChunked, HeaderMissed;
    match st.status {
      case Start => FirstLineCutShows(st, more);
      case FirstLine => FirstLineCutShows(st, more);
      case HeaderFields => FieldsCutShows(st, more);
      case _ => ClosedBodyShows(st, st, more);
    }
  }

  /** Once its end has arrived, a trailer leaves less than what arrived with the end. */
  lemma TrailerEnds(st: State, more: string)
    requires Open(st)
    ensures var r := Drive(With(st, more));
            r == With(st, more) || (r.status == End && |r.buf| < |more|)
  {
    hide StrnStr, Strtoull, Trim, IsChunked, FirstAt;
    var sizeEnd := StrnStr(st.buf, CRLF).value;
    ChunkSizeIsStable(st, more, sizeEnd, 0);
    var rest := st.buf[sizeEnd + 2..];
    assert With(st, more).buf[sizeEnd + 2..] == rest + more;
    var found := StrnStr(rest + more, CRLF);
    if found.Some? && found.value + 2 <= |rest| {
      StrnStrIsFirst(rest + more, CRLF, found.value);
      FirstInPrefix(rest + more, CRLF, found.value, |rest|);
      assert (rest + more)[..|rest|] == rest;
      StrnStrIsFirst(rest, CRLF, found.value);
      assert false;
    }
  }

  lemma OpenFields(st: State)
    requires Open(st)
    ensures st.status == Body && IsChunked(st.fields) && |st.buf| >= 4
  {
  }

  /**
   Two calls of `Recv` do what one call with all their bytes does, for every
   state, every cut and whatever stands behind the contents at each of the three
   calls, exactly if the cut is in none of the corners, the first call does not
   end early, and the last one ends early just as the single one does.
   */
  lemma CodeCutIndependence(st: State, first: string, second: string, b1: string, b2: string, b: string)
    requires !Failed(st) && Consistent(st) && first != "" && second != ""
    requires |st.buf| + |first| + |second| < INT_LIMIT && !Failed(IntRecv(st, first, b1).st)
    ensures IntRecv(IntRecv(st, first, b1).st, second, b2).st == IntRecv(st, first + second, b).st
            <==> && !CutMatters(With(st, first), second)
                 && !CutShort(st, first, b1)
                 && (CutShort(Recv(st, first), second, b2) <==> CutShort(st, first + second, b))
  {
    hide Drive, IntRecv, CutMatters, CutShort, Open;
    var r, whole := Recv(st, first), Recv(st, first + second);
    ShortRecv(st, first, b1);
    ShortRecv(st, first + second, b);
    if Open(r) { OpenFields(r); }
    if Open(whole) { OpenFields(whole); }
    assert With(With(st, first), second) == With(st, first + second);
    if CutMatters(With(st, first), second) {
      CutShows(With(st, first), second);
    }
    CutIndependence(st, first, second);
    if CutShort(st, first, b1) {
      AfterEnd(Ended(r), second, b2);
      assert "" + second == second;
      TrailerEnds(r, second);
    } else {
      ShortRecv(r, second, b2);
      if Open(Recv(r, second)) { OpenFields(Recv(r, second)); }
    }
  }

  /** What the cut theorem asks of a state holds of every state calls lead to. */
  lemma RecvKeepsConsistent(st: State, data: string, behind: string)
    requires !Failed(st) && Consistent(st) && |st.buf| + |data| < INT_LIMIT
    ensures Consistent(IntRecv(st, data, behind).st)
  {
    hide Drive, IntRecv, CutShort;
    ShortRecv(st, data, behind);
    if data != "" {
      DriveKeepsConsistent(With(st, data));
    }
  }

  /** Once a message has ended, what arrives is left in the buffer. */
  lemma AfterEnd(st: State, data: string, behind: string)
    requires st.status == End
    ensures IntRecv(st, data, behind).st == With(st, data)
  {
    if data == "" {
      assert st.buf + data == st.buf;
    } else {
      IntDriveStep(With(st, data), behind);
    }
  }

  // ----- a cut that matters -----

  lemma TurnGoesOn(st: State, next: State, behind: string)
    requires !Failed(st) && Pass(st) == Again(next)
    ensures |next.buf| <= |st.buf| && (EndsEarly(st, behind) <==> EndsEarly(next, Shifted(st, next, behind)))
  {
    hide Pass, Open;
    PassShrinks(st);
    if Open(st) {
      OpenWaits(st);
    }
  }

  lemma MessageGoesOn(x: Head, body: string, behind: string) returns (left: string)
    requires Known(x) && GoodHead(x)
    ensures EndsEarly(With(INITIAL, Message(x, body)), behind) <==> EndsEarly(AfterHead(x, body), left)
  {
    var tail := FieldsToString(x.fields) + (CRLF + body);
    var st := With(INITIAL, Message(x, body));
    FieldsStart(x.fields, CRLF + body);
    FirstRead(x, tail);
    HeadRead(x, body);
    hide ReadFirstLine, ReadFields, GoodHead, FirstText, FieldsToString, EndsEarly;
    TurnGoesOn(st, AfterFirst(x, tail), behind);
    left := Shifted(st, AfterFirst(x, tail), behind);
    TurnGoesOn(AfterFirst(x, tail), AfterHead(x, body), left);
    left := Shifted(AfterFirst(x, tail), AfterHead(x, body), left);
  }

  /** A last chunk and a part of a trailer. */
  const PART: string := "0\r\nA: b"

  lemma PartOpen(st: State)
    requires st.status == Body && IsChunked(st.fields) && st.buf == PART
    ensures Open(st) && StrnStr(st.buf, CRLF) == Some(1)
  {
    hide Strtoull, StrnStr, Trim, IsChunked;
    assert st.buf == "0" + (CRLF + "A: b");
    EofSaysZero();
    LineAhead(st, "0", "A: b", 0);
    FieldWaits();
  }

  lemma FieldWaits()
    ensures StrnStr("A: b", CRLF) == None
  {
    hide StrnStr;
    var line := "A: b" + (CRLF + "");
    NoCrIsUnbroken("A: b");
    LineEnd("A: b", "");
    StrnStrIsFirst(line, CRLF, 4);
    NotYetFound(line, CRLF, 4, 4);
    assert line[..4] == "A: b";
  }

  /** Behind a chunk that has been taken stands the end of what the buffer held before. */
  lemma PartEndsEarly(st: State, left: string)
    requires st.status == Body && IsChunked(st.fields) && st.buf == Frame(HELLO) + PART
    ensures EndsEarly(st, left) && Drive(st) == st.(body := st.body + "hello", buf := PART)
  {
    hide Strtoull, StrnStr, Trim, IsChunked, Numeral, Frame, ReadChunk, Open, Drive;
    var next := st.(body := st.body + "hello", buf := PART);
    FrameOfHello();
    FrameRead(st, HELLO, PART);
    PartOpen(next);
    DriveStep(st);
    OpenWaits(next);
    DriveStep(next);
    TurnGoesOn(st, next, left);
    var behind := Shifted(st, next, left);
    StaleBytes(next, behind);
  }

  const HELLO: Chunk := Chunk("5", "hello")

  lemma FrameOfHello()
    ensures Frame(HELLO) == "5\r\nhello\r\n" && IsChunk(HELLO)
  {
    hide IsChunk;
    assert Numeral(5, 16) == "5";
    assert BuiltChunk("hello") == HELLO;
    BuiltIsChunk("hello");
  }

  lemma LineSought(line: string, rest: string, n: nat)
    requires InLine(line) && |line| + 2 <= n < INT_LIMIT
    ensures Sought(line + (CRLF + rest), n, CRLF) == Some(|line|)
  {
    hide StrnStr, InLine;
    var all := line + (CRLF + rest);
    var seen := if |all| <= n then all else all[..n];
    assert seen == line + (CRLF + seen[|line| + 2..]);
    LineHasNoNul(line);
    LineEnd(line, seen[|line| + 2..]);
  }

  lemma StaleBytes(st: State, behind: string)
    requires Open(st) && StrnStr(st.buf, CRLF) == Some(1) && st.buf == PART && "o\r\n" <= behind
    ensures Early(st, behind)
  {
    hide StrnStr, Sought, Open;
    NoCrIsUnbroken("A: bo");
    LineSought("A: bo", behind[3..], 7);
    assert st.buf[3..] + behind == "A: bo" + (CRLF + behind[3..]);
  }

  lemma PartInMessage(x: Head, behind: string)
    requires Known(x) && GoodHead(x) && IsChunked(x.fields) && |Message(x, "")| + 21 < INT_LIMIT
    ensures IntRecv(INITIAL, Message(x, Frame(HELLO) + PART), behind).st == Finished(x, "hello")
  {
    hide GoodHead, Message, IntRecv, Recv, EndsEarly, Open, Drive, IsChunked, Frame;
    FrameOfHello();
    var body := Frame(HELLO) + PART;
    MessageStart(x, body);
    LengthOfMessage(x, body);
    LengthOfMessage(x, "");
    InitialWith(Message(x, body));
    var left := MessageGoesOn(x, body, behind);
    PartEndsEarly(AfterHead(x, body), left);
    ShortRecv(INITIAL, Message(x, body), behind);
    assert "" + "hello" == "hello";
    assert Recv(INITIAL, Message(x, body)) == AfterHead(x, body).(body := "hello", buf := PART);
    assert CutShort(INITIAL, Message(x, body), behind);
    assert AfterHead(x, body) == AfterHead(x, "").(buf := body);
  }

  lemma WholeTrailer(x: Head, behind: string)
    requires Known(x) && GoodHead(x) && IsChunked(x.fields) && |Message(x, "")| + 21 < INT_LIMIT
    ensures IntRecv(INITIAL, Message(x, Frame(HELLO) + PART) + BLANK, behind).st == Finished(x, "hello").(buf := CRLF)
  {
    hide GoodHead, Message, IntRecv, Recv, CutShort, Open, Drive, IsChunked, Frame, ReadChunk, StrnStr;
    FrameOfHello();
    var body := Frame(HELLO) + (PART + BLANK);
    MessageContinued(x, Frame(HELLO) + PART, BLANK);
    assert Frame(HELLO) + PART + BLANK == body;
    MessageStart(x, body);
    LengthOfMessage(x, body);
    LengthOfMessage(x, "");
    InitialWith(Message(x, body));
    var st := AfterHead(x, body);
    var next := st.(body := "" + "hello", buf := PART + BLANK);
    FrameRead(st, HELLO, PART + BLANK);
    NoCrIsUnbroken("A: b");
    EofSaysZero();
    assert PART + BLANK == "0" + (CRLF + ("A: b" + (CRLF + CRLF)));
    LastChunkRead(next, "0", "A: b", CRLF);
    DriveStep(st);
    DriveStep(next);
    ShortRecv(INITIAL, Message(x, body), behind);
    if Open(Recv(INITIAL, Message(x, body))) { OpenFields(Recv(INITIAL, Message(x, body))); }
    assert "" + "hello" == "hello";
  }

  lemma MessageContinued(x: Head, body: string, more: string)
    requires Known(x)
    ensures Message(x, body) + more == Message(x, body + more)
  {
    hide FirstText, FieldsToString;
  }

  /**
   A cut in a trailer: behind a chunk that has been taken, the search for the
   trailer's end sees what the buffer held before. In two pieces the message
   ends too early and leaves other bytes in the buffer than in one.
   */
  lemma CodeCutInTrailer(x: Head, b1: string, b2: string, b: string)
    requires Known(x) && GoodHead(x) && IsChunked(x.fields) && |Message(x, "")| + 21 < INT_LIMIT
    ensures var first, second := Message(x, "5\r\nhello\r\n0\r\nA: b"), "\r\n\r\n";
            && IntFeed(INITIAL, [first], [b1]) == Finished(x, "hello")
            && IntFeed(INITIAL, [first, second], [b1, b2]) == Finished(x, "hello").(buf := "\r\n\r\n")
            && IntRecv(INITIAL, first + second, b).st == Finished(x, "hello").(buf := "\r\n")
  {
    hide GoodHead, Message, IntRecv, Recv, EndsEarly, Open, Drive, IsChunked, Frame;
    FrameOfHello();
    var body := Frame(HELLO) + PART;
    var first := Message(x, body);
    assert body == "5\r\nhello\r\n0\r\nA: b";
    PartInMessage(x, b1);
    OnePiece(first, b1);
    FeedTwoInts(first, b1, BLANK, b2);
    AfterEnd(Finished(x, "hello"), BLANK, b2);
    WholeTrailer(x, b);
  }
  // ----- any fragmentation -----

  /**
   A trailer waits for its end, and a search that finds CRLF behind the contents
   takes that for it. A NUL in the trailer would end the search.
   */
  predicate Exposed(st: State) {
    Open(st) && NUL !in st.buf[StrnStr(st.buf, CRLF).value + 2..]
  }

  lemma EarlyIsExposed(st: State, behind: string)
    requires Early(st, behind)
    ensures Exposed(st)
  {
    hide StrnStr, FirstAt, IsChunked, Strtoull, Trim;
    var rest := st.buf[StrnStr(st.buf, CRLF).value + 2..];
    var all := rest + behind;
    var n := IntLength(|st.buf|);
    var seen := if |all| <= n then all else all[..n];
    var found := StrnStr(seen, CRLF).value;
    StrnStrIsFirst(seen, CRLF, found);
    FirstHasNoNul(seen, CRLF, found);
    if |seen| < |rest| {
      assert rest == seen + rest[|seen|..];
      FoundIsStable(seen, rest[|seen|..], CRLF);
      assert false;
    } else if found + 2 <= |rest| {
      FirstInPrefix(seen, CRLF, found, |rest|);
      assert seen[..|rest|] == rest;
      StrnStrIsFirst(rest, CRLF, found);
      assert false;
    }
    assert forall i :: 0 <= i < |rest| ==> rest[i] == seen[..found + 2][i];
  }

  lemma FirstHasNoNul(s: string, pat: string, i: nat)
    requires FirstAt(s, pat, i)
    ensures i + |pat| <= |s| && NUL !in s[..i + |pat|]
  {
  }

  /** Behind an exposed state, CRLF ends the message. */
  lemma ExposedEnds(st: State)
    requires Exposed(st) && |st.buf| < INT_LIMIT
    ensures Early(st, CRLF)
  {
    hide StrnStr, FirstAt, IsChunked, Strtoull, Trim;
    var sizeEnd := StrnStr(st.buf, CRLF).value;
    var rest := st.buf[sizeEnd + 2..];
    var all := rest + CRLF;
    assert sizeEnd + 2 >= 2;
    CrlfAtEnd(rest);
  }

  /** A text without NUL that ends with CRLF holds one. */
  lemma CrlfAtEnd(s: string)
    requires NUL !in s
    ensures StrnStr(s + CRLF, CRLF).Some?
  {
    hide StrnStr;
    var all := s + CRLF;
    assert At(all, CRLF, |s|);
    var i := LeastAt(all, |s|);
    assert NUL !in all;
    assert forall c :: c in all[..i + 2] ==> c in all;
    StrnStrIsFirst(all, CRLF, i);
  }

  lemma {:induction false} LeastAt(s: string, n: nat) returns (i: nat)
    requires At(s, CRLF, n)
    ensures At(s, CRLF, i) && forall j :: 0 <= j < i ==> !At(s, CRLF, j)
  {
    if k: nat :| k < n && At(s, CRLF, k) {
      i := LeastAt(s, k);
    } else {
      i := n;
    }
  }

  lemma {:induction false} EndsExposed(st: State, behind: string)
    requires EndsEarly(st, behind)
    ensures Exposed(Drive(st))
    decreases Rank(st.status), |st.buf|
  {
    hide Pass, Open, Drive, Exposed, Early;
    DriveStep(st);
    if Early(st, behind) {
      EarlyIsExposed(st, behind);
      ExposedIsOpen(st);
      OpenWaits(st);
    } else {
      PassProgresses(st);
      PassShrinks(st);
      EndsExposed(Pass(st).st, Shifted(st, Pass(st).st, behind));
    }
  }

  lemma ExposedIsOpen(st: State)
    requires Exposed(st)
    ensures Open(st)
  {
  }

  /** However much of the stream has arrived, no trailer waits for its end in this way. */
  ghost predicate Sheltered(s: string) {
    forall k :: 0 < k <= |s| ==> !Exposed(Recv(INITIAL, s[..k]))
  }

  lemma ShelteredPrefix(s: string, more: string)
    requires Sheltered(s + more)
    ensures Sheltered(s)
  {
    hide Exposed, Recv;
    forall k | 0 < k <= |s|
      ensures !Exposed(Recv(INITIAL, s[..k]))
    {
      assert (s + more)[..k] == s[..k];
    }
  }

  lemma ShelteredWhole(s: string)
    requires s != "" && Sheltered(s)
    ensures !Exposed(Recv(INITIAL, s))
  {
    hide Exposed, Recv;
    assert s[..|s|] == s;
  }

  /** A stream whose cuts matter only where a trailer is cut. */
  ghost predicate Regular(s: string) { s != "" && Unfailing(s) && Delimited(s) }

  lemma RegularPrefix(s: string, more: string)
    requires Regular(s + more) && s != "" && more != ""
    ensures Regular(s) && !Failed(Recv(INITIAL, s)) && !CutMatters(With(INITIAL, s), more)
  {
    hide Unfailing, Delimited, Recv, CutMatters;
    UnfailingPrefix(s, more);
    PrefixDelimited(s, more);
  }

  lemma LastIsQuiet(st: State, last: string, behind: string)
    requires !Failed(st) && !Exposed(Recv(st, last))
    ensures !CutShort(st, last, behind)
  {
    hide Exposed, EndsEarly, Drive;
    if CutShort(st, last, behind) {
      EndsExposed(With(st, last), behind);
    }
  }

  lemma FeedOne(st: State, piece: string)
    requires !Failed(st)
    ensures Feed(st, [piece]) == Recv(st, piece)
  {
    hide Recv;
    assert [piece][1..] == [] && Feed(st, [piece]) == Feed(Recv(st, piece), []);
  }

  /** Then no call finds the end of one, whatever stands behind the contents. */
  lemma {:induction false} ShelteredIsQuiet(pieces: seq<string>, behinds: seq<string>)
    requires |behinds| == |pieces| && pieces != [] && "" !in pieces
    requires Regular(Join(pieces)) && Sheltered(Join(pieces))
    ensures Quiet(INITIAL, pieces, behinds)
    decreases |pieces|
  {
    hide Exposed, Recv, Feed, CutShort, Unfailing, Delimited, Sheltered, Join, CutMatters;
    var n := |pieces| - 1;
    var init, last := pieces[..n], pieces[n];
    assert pieces == init + [last] && behinds == behinds[..n] + [behinds[n]];
    assert last in pieces;
    JoinLast(init, last);
    FeedLast(INITIAL, init, last);
    FragmentationIrrelevant(pieces);
    ShelteredWhole(Join(pieces));
    if init == [] {
      assert Feed(INITIAL, init) == INITIAL by { FeedNothing(); }
    } else {
      JoinNonempty(init);
      RegularPrefix(Join(init), last);
      ShelteredPrefix(Join(init), last);
      ShelteredIsQuiet(init, behinds[..n]);
      FragmentationIrrelevant(init);
    }
    FeedOne(Feed(INITIAL, init), last);
    LastIsQuiet(Feed(INITIAL, init), last, behinds[n]);
    QuietLast(INITIAL, init, behinds[..n], last, behinds[n]);
  }

  lemma FeedNothing()
    ensures Feed(INITIAL, []) == INITIAL
  {
  }

  // ----- where memory decides -----

  /** Nothing more is done without more bytes. */
  predicate Settled(st: State) {
    Failed(st) || Pass(st) == Return(st) || (st.status == Body && st.buf == "")
  }

  lemma ReturnSettles(st: State)
    requires !Failed(st) && Pass(st).Return?
    ensures Settled(Pass(st).st)
  {
    hide StrnStr, Strtoull, Trim, IsChunked, IsConnectionClose, ContentLength, ReadFirstLine, ReadFields, ReadBody;
    match st.status {
      case Start => FirstLineAwaits(st); SameFirstLine(st);
      case FirstLine => FirstLineAwaits(st); SameFirstLine(st);
      case HeaderFields => FieldsTurn(st);
      case Body => if !IsChunked(st.fields) { PlainCases(st); }
      case _ =>
    }
  }

  lemma {:induction false} DriveSettles(st: State)
    requires !Failed(st)
    ensures Settled(Drive(st))
    decreases Rank(st.status), |st.buf|
  {
    hide Pass, Drive, Settled;
    DriveStep(st);
    if Pass(st).Again? {
      PassProgresses(st);
      DriveSettles(Pass(st).st);
    } else {
      ReturnSettles(st);
    }
  }

  /** What one more byte makes appear ends with it. */
  lemma FoundWithLast(s: string, c: string, pat: string)
    requires pat != "" && NUL !in pat && |c| == 1 && StrnStr(s, pat) == None && StrnStr(s + c, pat).Some?
    ensures StrnStr(s + c, pat).value + |pat| == |s + c|
  {
    hide StrnStr, FirstAt;
    var i := StrnStr(s + c, pat).value;
    if i + |pat| <= |s| {
      StrnStrIsFirst(s + c, pat, i);
      FirstInPrefix(s + c, pat, i, |s|);
      assert (s + c)[..|s|] == s;
      StrnStrIsFirst(s, pat, i);
    }
  }

  /** A pass that the last byte makes possible leaves nothing in the buffer. */
  lemma LastByteTaken(st: State, c: string)
    requires !Failed(st) && Settled(st) && |c| == 1 && Pass(With(st, c)).Again?
    ensures Pass(With(st, c)).st.buf == ""
  {
    hide StrnStr, StatusFromString, RequestFromString, ParseFields, Strtoull, Trim, IsChunked, ReadBody;
    match st.status {
      case HeaderFields => FoundWithLast(st.buf, c, BLANK);
      case Body =>
        if IsChunked(st.fields) {
          LastByteOfChunk(st, c);
        } else {
          BodyReturns(With(st, c));
        }
      case _ => FoundWithLast(st.buf, c, CRLF);
    }
  }

  lemma LastByteOfChunk(st: State, c: string)
    requires st.status == Body && IsChunked(st.fields) && Settled(st) && |c| == 1
    ensures ReadChunk(With(st, c)).Return?
  {
    hide StrnStr, Strtoull, Trim, IsChunked;
    var buf := st.buf + c;
    if StrnStr(buf, CRLF).Some? {
      if StrnStr(st.buf, CRLF).Some? {
        FoundIsStable(st.buf, c, CRLF);
        var sizeEnd := StrnStr(buf, CRLF).value;
        assert buf[..sizeEnd] == st.buf[..sizeEnd];
      } else {
        FoundWithLast(st.buf, c, CRLF);
      }
    }
  }

  lemma EmptyStaysClosed(st: State)
    requires !Failed(st) && st.buf == ""
    ensures !Open(Drive(st))
  {
    hide Drive;
    ShortDrive(st, "");
  }

  /** If a trailer waits once one more byte has arrived, this byte was its last. */
  lemma LastByteWaits(st: State, c: string)
    requires !Failed(st) && Settled(st) && |c| == 1 && Open(Drive(With(st, c)))
    ensures Drive(With(st, c)) == With(st, c)
  {
    hide Drive, Pass, Open, Settled;
    DriveStep(With(st, c));
    if Pass(With(st, c)).Again? {
      LastByteTaken(st, c);
      EmptyStaysClosed(Pass(With(st, c)).st);
    } else {
      OpenIsUnchanged(With(st, c));
    }
  }

  lemma OpenIsUnchanged(st: State)
    requires !Failed(st) && Pass(st).Return? && Open(Pass(st).st)
    ensures Pass(st) == Return(st)
  {
    hide StrnStr, StatusFromString, RequestFromString, ParseFields, Strtoull, Trim, IsChunked, ReadBody;
    if st.status == Body && !IsChunked(st.fields) {
      PlainCases(st);
    }
  }

  /** What arrives after an early end shows that it was one. */
  lemma EarlyEndShows(s: string, more: string)
    requires more != "" && Regular(s + more) && s != "" && Open(Recv(INITIAL, s))
    ensures Recv(INITIAL, s + more) != Ended(Recv(INITIAL, s)).(buf := more)
  {
    hide Drive, Open, Unfailing, Delimited, CutMatters;
    RegularPrefix(s, more);
    CutIndependence(INITIAL, s, more);
    OpenFields(Recv(INITIAL, s));
    TrailerEnds(Recv(INITIAL, s), more);
  }

  /** If a trailer waits behind s and one more byte, CRLF behind that byte ends the message. */
  lemma OneMoreByte(s: string, c: string)
    requires Regular(s + c) && s != "" && |c| == 1 && |s + c| < INT_LIMIT && Exposed(Recv(INITIAL, s + c))
    requires !Failed(Recv(INITIAL, s))
    ensures IntRecv(Recv(INITIAL, s), c, CRLF).st == Ended(Recv(INITIAL, s + c))
  {
    hide Drive, Open, Exposed, Unfailing, Delimited, CutMatters, Settled, Early, IntRecv;
    RegularPrefix(s, c);
    CutIndependence(INITIAL, s, c);
    var st := Recv(INITIAL, s);
    InitialWith(s);
    DriveSettles(With(INITIAL, s));
    ExposedIsOpen(Recv(INITIAL, s + c));
    LastByteWaits(st, c);
    ShortRecv(INITIAL, s, "");
    ExposedEnds(With(st, c));
    ShortRecv(st, c, CRLF);
  }

  lemma FeedTwoInts(a: string, x: string, b: string, y: string)
    ensures IntFeed(INITIAL, [a, b], [x, y])
            == var st := IntRecv(INITIAL, a, x).st; if Failed(st) then st else IntRecv(st, b, y).st
  {
    hide IntRecv;
    var st := IntRecv(INITIAL, a, x).st;
    assert [a, b][1..] == [b] && [x, y][1..] == [y] && [b][1..] == [] && [y][1..] == [];
    assert IntFeed(INITIAL, [a, b], [x, y]) == IntFeed(st, [b], [y]);
    if !Failed(st) {
      assert IntFeed(st, [b], [y]) == IntFeed(IntRecv(st, b, y).st, [], []);
    }
  }

  lemma {:induction false} FeedMoreInts(st: State, pieces: seq<string>, behinds: seq<string>, last: string, b: string)
    requires |behinds| == |pieces|
    ensures IntFeed(st, pieces + [last], behinds + [b])
            == var r := IntFeed(st, pieces, behinds); if Failed(r) then r else IntRecv(r, last, b).st
    decreases |pieces|
  {
    hide IntRecv;
    var all, memory := pieces + [last], behinds + [b];
    if pieces == [] {
      assert all[1..] == [] && memory[1..] == [];
    } else if !Failed(st) {
      assert all[1..] == pieces[1..] + [last] && memory[1..] == behinds[1..] + [b];
      FeedMoreInts(IntRecv(st, pieces[0], behinds[0]).st, pieces[1..], behinds[1..], last, b);
    }
  }

  /** A run that has ended early, with the rest of the stream behind it. */
  lemma EarlyRunDiffers(pieces: seq<string>, behinds: seq<string>, s: string, rest: string)
    returns (all: seq<string>, memory: seq<string>)
    requires |behinds| == |pieces| && "" !in pieces && Join(pieces) == s && s != "" && Regular(s + rest)
    requires Open(Recv(INITIAL, s)) && IntFeed(INITIAL, pieces, behinds) == Ended(Recv(INITIAL, s))
    ensures |memory| == |all| && "" !in all && Join(all) == s + rest
    ensures IntFeed(INITIAL, all, memory) != Recv(INITIAL, s + rest)
  {
    hide Drive, Open, Unfailing, Delimited, Recv, Join, IntFeed;
    OpenFields(Recv(INITIAL, s));
    if rest == "" {
      all, memory := pieces, behinds;
      assert s + rest == s;
    } else {
      all, memory := pieces + [rest], behinds + [""];
      JoinLast(pieces, rest);
      FeedMoreInts(INITIAL, pieces, behinds, rest, "");
      AfterEnd(Ended(Recv(INITIAL, s)), rest, "");
      assert "" + rest == rest;
      EarlyEndShows(s, rest);
    }
  }

  /** If a trailer waits at some point, there is a run that ends there too early. */
  lemma ExposedDiffers(s: string, k: nat) returns (pieces: seq<string>, behinds: seq<string>)
    requires Regular(s) && |s| < INT_LIMIT && 0 < k <= |s| && Exposed(Recv(INITIAL, s[..k]))
    ensures |behinds| == |pieces| && "" !in pieces && Join(pieces) == s
    ensures IntFeed(INITIAL, pieces, behinds) != Recv(INITIAL, s)
  {
    hide Drive, Open, Exposed, Unfailing, Delimited, Recv, Join, IntFeed, IntRecv, CutShort, CutMatters;
    ExposedIsOpen(Recv(INITIAL, s[..k]));
    FirstByteClosed(s[..k]);
    var p, c := s[..k - 1], s[k - 1..k];
    assert s == p + s[k - 1..] && s[..k] == p + c && s == s[..k] + s[k..];
    RegularPrefix(p, s[k - 1..]);
    ShortRecv(INITIAL, p, "");
    OnePiece(p, "");
    if CutShort(INITIAL, p, "") {
      pieces, behinds := EarlyRunDiffers([p], [""], p, s[k - 1..]);
    } else {
      if s[k..] != "" { RegularPrefix(s[..k], s[k..]); } else { assert s[..k] == s; }
      OneMoreByte(p, c);
      TwoParts(p, c);
      FeedTwoInts(p, "", c, CRLF);
      pieces, behinds := EarlyRunDiffers([p, c], ["", CRLF], s[..k], s[k..]);
    }
  }

  lemma FirstByteClosed(s: string)
    requires |s| < INT_LIMIT && Open(Recv(INITIAL, s))
    ensures |s| > 1
  {
    hide Drive, Recv;
    ShortRecv(INITIAL, s, "");
    OpenFields(Recv(INITIAL, s));
  }

  lemma OnePiece(p: string, b: string)
    ensures Join([p]) == p && IntFeed(INITIAL, [p], [b]) == IntRecv(INITIAL, p, b).st
  {
    hide IntRecv;
    assert [p][1..] == [] && [b][1..] == [] && Join([p]) == p + Join([]) && p + "" == p;
    assert IntFeed(INITIAL, [p], [b]) == IntFeed(IntRecv(INITIAL, p, b).st, [], []);
  }

  lemma TwoParts(a: string, b: string)
    ensures Join([a, b]) == a + b
  {
    assert [a, b][1..] == [b] && [b][1..] == [] && Join([b]) == b + Join([]);
    assert b + "" == b;
  }

  /** However s is cut and whatever stands behind the contents, the parser ends up the same. */
  ghost predicate CutAnywhere(s: string) {
    forall pieces: seq<string>, behinds: seq<string> ::
      |behinds| == |pieces| && "" !in pieces && Join(pieces) == s ==>
        IntFeed(INITIAL, pieces, behinds) == Recv(INITIAL, s)
  }

  /**
   A stream may be cut anywhere, whatever stands behind the contents, exactly
   if at no point a trailer waits for its end.
   */
  lemma CodeFragmentation(s: string)
    requires Regular(s) && |s| < INT_LIMIT
    ensures CutAnywhere(s) <==> Sheltered(s)
  {
    hide Drive, Exposed, Unfailing, Delimited, Recv, Join, IntFeed, Feed;
    if Sheltered(s) {
      forall pieces: seq<string>, behinds: seq<string> |
        |behinds| == |pieces| && "" !in pieces && Join(pieces) == s
        ensures IntFeed(INITIAL, pieces, behinds) == Recv(INITIAL, s)
      {
        ShelteredRun(s, pieces, behinds);
      }
    } else {
      var k :| 0 < k <= |s| && Exposed(Recv(INITIAL, s[..k]));
      var pieces, behinds := ExposedDiffers(s, k);
    }
  }

  lemma ShelteredRun(s: string, pieces: seq<string>, behinds: seq<string>)
    requires Regular(s) && |s| < INT_LIMIT && Sheltered(s)
    requires |behinds| == |pieces| && "" !in pieces && Join(pieces) == s
    ensures IntFeed(INITIAL, pieces, behinds) == Recv(INITIAL, s)
  {
    hide Exposed, Unfailing, Delimited, Recv, IntFeed, Feed, Sheltered, Quiet, Fits;
    assert pieces != [];
    ShelteredIsQuiet(pieces, behinds);
    ShortStreamFits(INITIAL, pieces, behinds);
    ShortFeed(INITIAL, pieces, behinds);
    FragmentationIrrelevant(pieces);
  }

  // ----- messages -----

  lemma MessageSheltered(x: Head, body: string, done: State)
    requires Known(x) && GoodHead(x) && BodyReads(x, body, done) && Untrailed(x, body)
    ensures Sheltered(Message(x, body))
  {
    hide Drive, Recv, Exposed, GoodHead, FirstText, FieldsToString, AfterHead, AfterFirst, Message;
    var m := Message(x, body);
    LengthOfMessage(x, body);
    forall k | 0 < k <= |m|
      ensures !Exposed(Recv(INITIAL, m[..k]))
    {
      PointOfMessage(x, body, done, k);
    }
  }

  lemma PointOfMessage(x: Head, body: string, done: State, k: nat)
    requires Known(x) && GoodHead(x) && BodyReads(x, body, done) && Untrailed(x, body)
    requires 0 < k <= |Message(x, body)|
    ensures !Exposed(Recv(INITIAL, Message(x, body)[..k]))
  {
    hide Drive, Exposed, Open, GoodHead, FirstText, FieldsToString, AfterHead, AfterFirst, Message;
    var m := Message(x, body);
    var r := Recv(INITIAL, m[..k]);
    LengthOfMessage(x, body);
    InitialWith(m[..k]);
    if Exposed(r) {
      ExposedIsOpen(r);
      OpenFields(r);
      if k < |m| {
        PrefixState(x, body, k);
      } else {
        assert m[..k] == m;
        MessageStart(x, body);
      }
    }
  }

  predicate IntWaits(pieces: seq<string>, behinds: seq<string>)
    requires |behinds| == |pieces|
  {
    var r := IntFeed(INITIAL, pieces, behinds);
    r.status != End && !Failed(r)
  }

  /** The code goes on waiting as long as pieces are missing. */
  ghost predicate IntNotBefore(pieces: seq<string>, behinds: seq<string>)
    requires |behinds| == |pieces|
  {
    forall n :: 0 <= n < |pieces| ==> IntWaits(pieces[..n], behinds[..n])
  }

  lemma ShortNotBefore(pieces: seq<string>, behinds: seq<string>)
    requires |behinds| == |pieces| && Fits(INITIAL, pieces, behinds) && Quiet(INITIAL, pieces, behinds)
    requires NotBefore(pieces)
    ensures IntNotBefore(pieces, behinds)
  {
    hide IntFeed, Feed, Fits, Quiet;
    forall n | 0 <= n < |pieces|
      ensures IntWaits(pieces[..n], behinds[..n])
    {
      FitsPrefix(INITIAL, pieces, behinds, n);
      QuietPrefix(INITIAL, pieces, behinds, n);
      ShortFeed(INITIAL, pieces[..n], behinds[..n]);
      assert Waits(pieces[..n]);
    }
  }

  /**
   A message whose body holds no trailer, in any pieces that keep the buffer
   below 2 GiB and whatever stands behind the contents: the parser is done
   exactly with the last piece, and holds what was sent.
   */
  lemma MessageInPieces(x: Head, body: string, done: State, pieces: seq<string>, behinds: seq<string>)
    requires Known(x) && GoodHead(x) && WithinLimits(x)
    requires BodyReads(x, body, done) && !CloseDelimited(x.fields) && Untrailed(x, body)
    requires "" !in pieces && Join(pieces) == Message(x, body)
    requires |behinds| == |pieces| && Fits(INITIAL, pieces, behinds)
    ensures IntFeed(INITIAL, pieces, behinds) == done && IntNotBefore(pieces, behinds)
  {
    hide GoodHead, BodyReads, Untrailed, CloseDelimited, Message, Feed, IntFeed, NotBefore, IntNotBefore, Fits, Join,
      Quiet, Unfailing, Delimited, Sheltered, Recv;
    MessageSettles(x, body, done);
    MessageSheltered(x, body, done);
    assert pieces != [] by { JoinOfNothing(); }
    ShelteredIsQuiet(pieces, behinds);
    AnyFragmentation(x, body, done, pieces);
    ShortFeed(INITIAL, pieces, behinds);
    ShortNotBefore(pieces, behinds);
  }

  lemma JoinOfNothing()
    ensures Join([]) == ""
  {
  }

  /** No proper prefix of such a message ends it, and none is refused exactly if it is within the limits. */
  lemma CodePrefixesWait(x: Head, body: string, done: State)
    requires Known(x) && GoodHead(x) && BodyReads(x, body, done) && Untrailed(x, body)
    requires |Message(x, body)| < INT_LIMIT
    ensures forall k, b :: 0 < k < |Message(x, body)| ==> IntRecv(INITIAL, Message(x, body)[..k], b).st.status != End
    ensures WithinLimits(x)
            <==> forall k, b :: 0 < k < |Message(x, body)| ==> !Failed(IntRecv(INITIAL, Message(x, body)[..k], b).st)
  {
    hide GoodHead, BodyReads, Untrailed, Message, Recv, IntRecv, Exposed, WithinLimits;
    var m := Message(x, body);
    PrefixesWait(x, body, done);
    forall k, b | 0 < k < |m|
      ensures IntRecv(INITIAL, m[..k], b).st == Recv(INITIAL, m[..k])
    {
      PointOfMessage(x, body, done, k);
      LastIsQuiet(INITIAL, m[..k], b);
      ShortRecv(INITIAL, m[..k], b);
    }
    if !WithinLimits(x) {
      var k :| 0 < k < |m| && Failed(Recv(INITIAL, m[..k]));
      assert Failed(IntRecv(INITIAL, m[..k], "").st);
    }
  }

  /** A body whose length the header says, in whatever spelling. */
  ghost predicate SaysLength(h: Fields, n: nat) {
    && !SaysChunked(h)
    && exists i, gap, s, ds, rest ::
         0 <= i < |h| && Alike(h[i].0, "Content-Length") && IsLengthText(h[i].1, gap, s, ds, rest, n)
  }

  /** Whitespace and zeros in front are allowed, and anything but digits behind. */
  predicate IsLengthText(v: string, gap: string, s: string, ds: seq<nat>, rest: string, n: nat) {
    && v == gap + (s + rest) && IsGap(gap) && s != "" && Spells(s, ds, 10) && NoMoreDigits(rest, 10)
    && Positional(ds, 10) == n
  }

  lemma LengthSaid(h: Fields, n: nat)
    requires Sorted(h) && SaysLength(h, n) && n <= ULLONG_MAX
    ensures !IsChunked(h) && ContentLength(h) == n
  {
    hide Alike, Spells, Positional, Sorted, SaysChunked;
    SaidInAnyCase(h);
    var i, gap, s, ds, rest :|
      0 <= i < |h| && Alike(h[i].0, "Content-Length") && IsLengthText(h[i].1, gap, s, ds, rest, n);
    LengthInAnyCase(h, i, gap, s, ds, rest);
  }

  /** A body of known length in any pieces. */
  lemma CodeSizedInPieces(x: Head, body: string, pieces: seq<string>, behinds: seq<string>)
    requires Known(x) && GoodHead(x) && WithinLimits(x)
    requires SaysLength(x.fields, |body|) && 0 < |body| <= 0x1_0000_0000
    requires "" !in pieces && Join(pieces) == Message(x, body)
    requires |behinds| == |pieces| && Fits(INITIAL, pieces, behinds)
    ensures IntFeed(INITIAL, pieces, behinds) == Finished(x, body)
    ensures IntNotBefore(pieces, behinds)
  {
    hide IsChunked, ContentLength, BodyReads, Untrailed, GoodFirst, GoodField, IntFeed, Join, IntNotBefore,
      CloseDelimited, Fits, SaysLength, Sorted;
    LengthSaid(x.fields, |body|);
    SizedBodyReads(x, body);
    MessageInPieces(x, body, Finished(x, body), pieces, behinds);
  }

  /** What follows a body of known length stays in the buffer. */
  lemma CodeSizedThenMore(x: Head, body: string, more: string, behind: string)
    requires Known(x) && GoodHead(x) && |Message(x, body + more)| < INT_LIMIT
    requires SaysLength(x.fields, |body|) && body != ""
    ensures IntRecv(INITIAL, Message(x, body + more), behind).st == Finished(x, body).(buf := more)
  {
    hide IsChunked, IsConnectionClose, ContentLength, GoodFirst, GoodField, CutShort, SaysLength, Sorted, Drive,
      Message, IntRecv, Recv, Open, ReadBody;
    LengthOfMessage(x, body + more);
    LengthSaid(x.fields, |body|);
    InitialWith(Message(x, body + more));
    MessageStart(x, body + more);
    var st := AfterHead(x, body + more);
    PlainCases(st);
    DriveStep(st);
    assert (body + more)[..|body|] == body && (body + more)[|body|..] == more && "" + body == body;
    ShortRecv(INITIAL, Message(x, body + more), behind);
    if Open(Drive(st)) { OpenFields(Drive(st)); }
  }

  /** A length beyond 4 GiB is refused as soon as the header is there. */
  lemma CodeOverlongRefused(x: Head, n: nat, body: string, behind: string)
    requires Known(x) && GoodHead(x) && |Message(x, body)| < INT_LIMIT
    requires SaysLength(x.fields, n) && 0x1_0000_0000 < n <= ULLONG_MAX
    ensures IntRecv(INITIAL, Message(x, body), behind).st.status == BodyError
  {
    hide IsChunked, IsConnectionClose, ContentLength, GoodFirst, GoodField, CutShort, SaysLength, Sorted, Drive,
      Message, IntRecv, Recv, Open, ReadBody;
    LengthSaid(x.fields, n);
    LengthOfMessage(x, body);
    InitialWith(Message(x, body));
    MessageStart(x, body);
    var st := AfterHead(x, body);
    PlainCases(st);
    DriveStep(st);
    ShortRecv(INITIAL, Message(x, body), behind);
    if Open(Drive(st)) { OpenFields(Drive(st)); }
  }

  /** A body that ends with the connection: all that came, once an empty call says so. */
  lemma CodeClosed(x: Head, body: string, b1: string, b2: string)
    requires Known(x) && GoodHead(x) && body != "" && |Message(x, body)| < INT_LIMIT
    requires SaysClose(x.fields) && !SaysChunked(x.fields)
    requires forall i :: 0 <= i < |x.fields| ==> !Alike(x.fields[i].0, "Content-Length")
    ensures IntFeed(INITIAL, [Message(x, body)], [b1]).status == Body
    ensures IntFeed(INITIAL, [Message(x, body), ""], [b1, b2]) == Finished(x, body)
  {
    hide GoodHead, IsConnectionClose, ContentLength, Message, IntRecv, Recv, CutShort, IsChunked, Alike, Sorted,
      SaysClose, SaysChunked;
    assert Sorted(x.fields) by { SortedHead(x); }
    SaidInAnyCase(x.fields);
    NoLengthSaid(x.fields);
    LengthOfMessage(x, body);
    ClosedMessage(x, body);
    ShortRecv(INITIAL, Message(x, body), b1);
    OnePiece(Message(x, body), b1);
    FeedTwoInts(Message(x, body), b1, "", b2);
    EmptyCallEnds(AfterHead(x, "").(body := body), b2);
  }

  lemma SortedHead(x: Head)
    requires GoodHead(x)
    ensures Sorted(x.fields)
  {
  }

  lemma EmptyCallEnds(st: State, behind: string)
    requires st.status == Body && IsConnectionClose(st.fields)
    ensures IntRecv(st, "", behind).st == st.(status := End)
  {
  }

  /** A block message of the builder in any pieces. */
  lemma CodeBlockInPieces(x: Head, body: string, pieces: seq<string>, behinds: seq<string>)
    requires Known(x) && GoodFirst(x) && GoodFields(x.fields)
    requires 0 < |body| < INT_LIMIT && !IsChunked(x.fields) && WithinLimits(WithLength(x, body))
    requires "" !in pieces && Join(pieces) == Message(WithLength(x, body), body)
    requires |behinds| == |pieces| && Fits(INITIAL, pieces, behinds)
    ensures IntFeed(INITIAL, pieces, behinds) == Finished(WithLength(x, body), body)
    ensures IntNotBefore(pieces, behinds)
  {
    var y := WithLength(x, body);
    WithLengthReads(x, body);
    hide IsChunked, ContentLength, WithLength, BodyReads, Untrailed, GoodHead, IntFeed, Join, IntNotBefore,
      CloseDelimited, Fits;
    SizedBodyReads(y, body);
    MessageInPieces(y, body, Finished(y, body), pieces, behinds);
  }

  /** A chunked message in any pieces, its fields and sizes in whatever spelling. */
  lemma CodeChunksInPieces(x: Head, chunks: seq<Chunk>, last: string, pieces: seq<string>, behinds: seq<string>)
    requires Known(x) && GoodHead(x) && WithinLimits(x)
    requires SaysChunked(x.fields) && AreChunks(chunks) && Says(last, 0)
    requires "" !in pieces && Join(pieces) == Message(x, ChunkText(chunks, last))
    requires |behinds| == |pieces| && Fits(INITIAL, pieces, behinds)
    ensures IntFeed(INITIAL, pieces, behinds) == Finished(x, DataOf(chunks))
    ensures IntNotBefore(pieces, behinds)
  {
    hide IsChunked, ChunkText, BodyReads, Untrailed, GoodFirst, GoodField, IntFeed, Join, IntNotBefore,
      CloseDelimited, AreChunks, Fits, Says, SaysChunked, Sorted;
    SaidInAnyCase(x.fields);
    ChunkedBodyReads(x, chunks, last);
    MessageInPieces(x, ChunkText(chunks, last), Finished(x, DataOf(chunks)), pieces, behinds);
  }

  /** A stream message of the builder in any pieces. */
  lemma CodeBuiltChunksInPieces(x: Head, datas: seq<string>, pieces: seq<string>, behinds: seq<string>)
    requires Known(x) && GoodFirst(x) && GoodFields(x.fields) && WithinLimits(WithChunks(x))
    requires forall i :: 0 <= i < |datas| ==> CanBuild(datas[i])
    requires "" !in pieces && Join(pieces) == Message(WithChunks(x), ChunkText(BuiltChunks(datas), "0"))
    requires |behinds| == |pieces| && Fits(INITIAL, pieces, behinds)
    ensures IntFeed(INITIAL, pieces, behinds) == Finished(WithChunks(x), Concat(datas))
    ensures IntNotBefore(pieces, behinds)
  {
    var y := WithChunks(x);
    WithChunksReads(x);
    hide IsChunked, ChunkText, WithChunks, BuiltChunks, IntFeed, Join, IntNotBefore, AreChunks, Fits, Says,
      SaysChunked, GoodFirst, GoodField, Sorted, CanBuild;
    BuiltAreChunks(datas);
    EofSaysZero();
    SaidInAnyCase(y.fields);
    CodeChunksInPieces(y, BuiltChunks(datas), "0", pieces, behinds);
  }

  /** The whole stream of chunks is delivered as their concatenation. */
  lemma CodeChunksRead(st: State, chunks: seq<Chunk>, last: string, behind: string)
    requires st.status == Body && IsChunked(st.fields) && AreChunks(chunks) && Says(last, 0)
    requires st.buf == ChunkText(chunks, last) && |st.buf| < INT_LIMIT
    ensures IntDrive(st, behind).st == st.(status := End, body := st.body + DataOf(chunks), buf := "")
  {
    hide IntDrive, Drive, ChunkText, IsChunked, AreChunks, EndsEarly, Open, Says;
    ChunksRead(st, chunks, last);
    ShortDrive(st, behind);
    if EndsEarly(st, behind) {
      EndsOpen(st, behind);
      OpenFields(Drive(st));
    }
  }

  /** A chunk of more than 4 GiB, or without CRLF behind its data, is refused. */
  lemma CodeBadChunkRefused(st: State, line: string, n: nat, more: string, behind: string)
    requires st.status == Body && IsChunked(st.fields) && |st.buf| < INT_LIMIT
    requires Says(line, n) && st.buf == line + (CRLF + more)
    requires n > 0x1_0000_0000 || (0 < n && n + 2 <= |more| && more[n..n + 2] != CRLF)
    ensures IntPass(st, behind).Return? && IntPass(st, behind).st.status == BodyError
  {
    hide ReadChunk, Says, IsChunked, IntPass, Open, Early;
    BadChunkRefused(st, line, n, more);
    ShortPass(st, behind);
    if Early(st, behind) {
      EarlyIsOpen(st, behind);
      OpenWaits(st);
    }
  }

  /** A first line that is not a known one is refused as soon as it is there. */
  lemma CodeFirstLineRefused(line: string, more: string, behind: string)
    requires InLine(line) && !IsKnownLine(line) && |line + (CRLF + more)| < INT_LIMIT
    ensures IntRecv(INITIAL, line + (CRLF + more), behind).st.status == FirstLineError
  {
    hide IntRecv, Recv, CutShort, Open, Drive, ReadFirstLine, InLine, IsKnownLine;
    var data := line + (CRLF + more);
    InitialWith(data);
    FirstLineDecided(With(INITIAL, data), line, more);
    DriveStep(With(INITIAL, data));
    ShortRecv(INITIAL, data, behind);
    StartIsNotOpen(Drive(With(INITIAL, data)));
  }

  lemma StartIsNotOpen(st: State)
    requires st.status != Body
    ensures !Open(st)
  {
  }

  /** Without a body what follows the header stays in the buffer. */
  lemma CodeNoBody(x: Head, more: string, behind: string)
    requires Known(x) && GoodHead(x) && |Message(x, more)| < INT_LIMIT
    requires !SaysChunked(x.fields) && !SaysClose(x.fields)
    requires SaysLength(x.fields, 0) || forall i :: 0 <= i < |x.fields| ==> !Alike(x.fields[i].0, "Content-Length")
    ensures IntRecv(INITIAL, Message(x, more), behind).st == Finished(x, "").(buf := more)
  {
    hide IsChunked, IsConnectionClose, ContentLength, GoodFirst, GoodFields, CutShort, SaysLength, Drive, Alike,
      SaysChunked, SaysClose, Message, IntRecv, Recv, Open, ReadBody;
    LengthOfMessage(x, more);
    SortedHead(x);
    NothingSaid(x.fields);
    InitialWith(Message(x, more));
    MessageStart(x, more);
    var st := AfterHead(x, more);
    PlainCases(st);
    DriveStep(st);
    assert more[..0] == "" && more[0..] == more && "" + "" == "";
    ShortRecv(INITIAL, Message(x, more), behind);
    StartIsNotOpen(Drive(st));
  }

  lemma NothingSaid(h: Fields)
    requires Sorted(h) && !SaysChunked(h) && !SaysClose(h)
    requires SaysLength(h, 0) || forall i :: 0 <= i < |h| ==> !Alike(h[i].0, "Content-Length")
    ensures !IsChunked(h) && !IsConnectionClose(h) && ContentLength(h) == 0
  {
    hide Sorted, Alike, SaysChunked, SaysClose, SaysLength;
    SaidInAnyCase(h);
    if SaysLength(h, 0) {
      LengthSaid(h, 0);
    } else {
      NoLengthSaid(h);
    }
  }

  /** A call without data changes nothing, but it ends a body that ends with the connection. */
  lemma CodeEmptyCall(st: State, behind: string)
    requires !Failed(st) && Sorted(st.fields)
    ensures IntRecv(st, "", behind).st == if SaysClose(st.fields) && st.status == Body then st.(status := End) else st
  {
    SaidInAnyCase(st.fields);
  }

  // ----- the corners in which the cut matters -----

  /** A message without fields whose blank line comes in a later piece is never seen to end. */
  lemma CodeCutBeforeBlankLine(x: Head, b1: string, b2: string, b: string)
    requires Known(x) && GoodFirst(x) && |FirstText(x)| + 2 < INT_LIMIT
    ensures IntFeed(INITIAL, [FirstText(x), CRLF], [b1, b2]).status == HeaderFields
    ensures IntRecv(INITIAL, FirstText(x) + CRLF, b).st.status == End
  {
    hide GoodFirst, FirstText, IntRecv, Recv, CutShort;
    WaitsForFields(x);
    HeaderlessWhole(x);
    FeedTwoInts(FirstText(x), b1, CRLF, b2);
    ShortRecv(INITIAL, FirstText(x) + CRLF, b);
    ShortRecv(INITIAL, FirstText(x), b1);
    ShortRecv(AfterFirst(x, ""), CRLF, b2);
  }

  /** A body that ends with the connection is lost if the first piece ends with the header. */
  lemma CodeCutAfterHeader(x: Head, body: string, b1: string, b2: string, b: string)
    requires Known(x) && GoodHead(x) && CloseDelimited(x.fields) && body != "" && |Message(x, body)| < INT_LIMIT
    ensures IntFeed(INITIAL, [Message(x, ""), body], [b1, b2]).body == ""
    ensures IntRecv(INITIAL, Message(x, body), b).st.body == body
  {
    hide GoodHead, IsConnectionClose, ContentLength, Message, IntRecv, Recv, CutShort, IsChunked;
    LengthOfMessage(x, body);
    LengthOfMessage(x, "");
    ClosedMessage(x, "");
    ClosedMessage(x, body);
    FeedTwoInts(Message(x, ""), b1, body, b2);
    ShortRecv(INITIAL, Message(x, ""), b1);
    ShortRecv(INITIAL, Message(x, body), b);
    AfterEnd(AfterHead(x, "").(status := End), body, b2);
  }

  lemma ClosedMessage(x: Head, body: string)
    requires Known(x) && GoodHead(x) && CloseDelimited(x.fields) && |body| <= MAX_LENGTH
    ensures Recv(INITIAL, Message(x, body))
            == AfterHead(x, "").(body := body, status := if body == "" then End else Body)
  {
    hide CloseDelimited, Drive, Message, GoodHead;
    MessageStart(x, body);
    LengthOfMessage(x, body);
    InitialWith(Message(x, body));
    CloseDelimitedRead(x, body);
  }

  /** A message beyond the parser's limits is refused if it is cut badly. */
  lemma CodeLimitsAreNeeded(x: Head, body: string, done: State, behinds: seq<string>) returns (pieces: seq<string>)
    requires Known(x) && GoodHead(x) && BodyReads(x, body, done) && !WithinLimits(x) && |behinds| == 2
    ensures "" !in pieces && Join(pieces) == Message(x, body) && |pieces| == 2
    ensures Failed(IntFeed(INITIAL, pieces, behinds))
  {
    hide BodyReads, IntRecv, Recv, GoodHead, FirstText, FieldsToString, CutShort;
    var m, n := Message(x, body), |FirstText(x)|;
    var k := if n - 1 > FIRST_LINE_LIMIT then FIRST_LINE_LIMIT + 1 else n + FIELDS_LIMIT + 1;
    LengthOfMessage(x, body);
    PrefixOutcome(x, body, done, k);
    ShortRecv(INITIAL, m[..k], behinds[0]);
    pieces := [m[..k], m[k..]];
    assert m == m[..k] + m[k..];
    TwoParts(m[..k], m[k..]);
    FeedTwoInts(m[..k], behinds[0], m[k..], behinds[1]);
    assert behinds == [behinds[0], behinds[1]];
  }

  // ----- from 2 GiB on -----

  /** A chunk that has arrived is delivered exactly if its size line is within what the search sees. */
  lemma CodeFrameRead(st: State, c: Chunk, rest: string, behind: string)
    requires IsChunk(c) && st.buf == Frame(c) + rest
    ensures IntChunk(st, behind) ==
            if |c.line| + 2 <= IntLength(|st.buf|) then
              var next := st.(body := st.body + c.data, buf := rest); if rest == "" then Return(next) else Again(next)
            else Return(st)
  {
    hide StrnStr, Strtoull, Trim, Frame, ChunkAt, Sought, Says;
    FrameStarts(st.buf, c, rest);
    FrameAhead(st, c, |Frame(c)|);
    FrameRead(st, c, rest);
    SoughtIsFound(st.buf, CRLF);
    var crlf := Sought(st.buf, |st.buf|, CRLF);
    var rest := if crlf.Some? then st.buf[crlf.value + 2..] else "";
    ChunkTurns(st, crlf, Sought(rest + behind, |st.buf|, CRLF), StrnStr(rest, CRLF));
  }

  /** What follows the size line of a chunk matters only for the last chunk. */
  lemma ChunkTurns(st: State, crlf: Option<nat>, x: Option<nat>, y: Option<nat>)
    requires crlf.Some? ==> crlf.value + 2 <= |st.buf| && Strtoull(Trim(st.buf[..crlf.value]), 16) != 0
    ensures crlf == None ==> ChunkAt(st, crlf, None) == Return(st)
    ensures crlf.Some? ==> ChunkAt(st, crlf, x) == ChunkAt(st, crlf, y)
  {
    hide Strtoull, Trim;
  }

  /**
   A message from 2 GiB on in one piece: refused, unless all that was cast away
   lies in a body of 4 GiB or more.
   */
  lemma LongMessage(x: Head, body: string, behind: string) returns (left: string)
    requires Known(x) && GoodHead(x) && |Message(x, body)| >= INT_LIMIT
    ensures Failed(IntRecv(INITIAL, Message(x, body), behind).st)
            || (|body| >= 2 * INT_LIMIT
                && IntRecv(INITIAL, Message(x, body), behind) == IntDrive(AfterHead(x, body), left))
  {
    hide IntDrive, IntFirstLine, IntFields, GoodHead, FirstText, FieldsToString;
    var m, tail := Message(x, body), FieldsToString(x.fields) + (CRLF + body);
    var st := With(INITIAL, m);
    assert "" + m == m && m == FirstText(x) + tail;
    IntDriveStep(st, behind);
    LongFirstLine(x, body);
    left := "";
    if IntFirstLine(st).Again? {
      var next := AfterFirst(x, tail);
      var moved := Shifted(st, next, behind);
      IntDriveStep(next, moved);
      LongFields(x, body);
      if IntFields(next).Again? {
        left := Shifted(next, AfterHead(x, body), moved);
      }
    }
  }

  lemma LongFirstLine(x: Head, body: string)
    requires Known(x) && GoodHead(x) && |Message(x, body)| >= INT_LIMIT
    ensures var st, tail := With(INITIAL, Message(x, body)), FieldsToString(x.fields) + (CRLF + body);
            IntFirstLine(st) == Return(st.(status := FirstLineError))
            || (IntFirstLine(st) == Again(AfterFirst(x, tail)) && |tail| >= 2 * INT_LIMIT)
  {
    hide FirstLineAt, StrnStr, GoodFirst, GoodFields, FirstText, FieldsToString, InLine, Sought;
    var tail := FieldsToString(x.fields) + (CRLF + body);
    var st := With(INITIAL, Message(x, body));
    var line := FirstLineText(x);
    FieldsStart(x.fields, CRLF + body);
    FirstLineFound(line, tail);
    FirstRead(x, tail);
    assert st.buf == line + CRLF + tail;
    SoughtIsFound(st.buf, CRLF);
    SoughtIsFound(st.buf, BLANK);
    FirstLineTurns(st, Sought(st.buf, |st.buf|, CRLF), Sought(st.buf, |st.buf|, BLANK), StrnStr(st.buf, BLANK));
  }

  /** Of the blank line it matters only whether it is where the first line ends. */
  lemma FirstLineTurns(st: State, crlf: Option<nat>, blank: Option<nat>, other: Option<nat>)
    requires crlf.Some? ==> crlf.value + 2 <= |st.buf|
    requires blank.Some? ==> blank.value + 4 <= |st.buf|
    requires other.Some? ==> other.value + 4 <= |st.buf|
    ensures crlf.Some? && blank != crlf && other != crlf ==>
              FirstLineAt(st, crlf, blank) == FirstLineAt(st, crlf, other)
    ensures crlf == None ==>
              FirstLineAt(st, crlf, blank)
              == Return(st.(status := if FIRST_LINE_LIMIT < |st.buf| then FirstLineError else FirstLine))
  {
    hide StatusFromString, RequestFromString;
  }

  lemma LongFields(x: Head, body: string)
    requires Known(x) && GoodHead(x) && |FieldsToString(x.fields) + (CRLF + body)| >= 2 * INT_LIMIT
    ensures var st := AfterFirst(x, FieldsToString(x.fields) + (CRLF + body));
            IntFields(st) == Return(st.(status := HeaderFieldsError))
            || (IntFields(st) == Again(AfterHead(x, body)) && |body| >= 2 * INT_LIMIT)
  {
    hide StrnStr, GoodFirst, GoodFields, FieldsToString, ParseFields, Sought;
    var st := AfterFirst(x, FieldsToString(x.fields) + (CRLF + body));
    HeadRead(x, body);
    BlankLineEnds(x.fields, body);
    SoughtIsFound(st.buf, BLANK);
    StrnStrIsFirst(st.buf, BLANK, |FieldsToString(x.fields)| - 2);
  }

  /** A block message in one piece is read back exactly if all of it is shorter than 2 GiB. */
  lemma CodeBlockRoundTrip(x: Head, body: string, behind: string)
    requires Known(x) && GoodFirst(x) && GoodFields(x.fields) && body != "" && !IsChunked(x.fields)
    ensures var y := WithLength(x, body);
            IntRecv(INITIAL, Message(y, body), behind).st == Finished(y, body) <==> |Message(y, body)| < INT_LIMIT
  {
    hide GoodHead, GoodFirst, GoodFields, WithLength, Message, IntRecv, IntDrive, Drive, Recv, IsChunked, ContentLength,
      CutShort;
    var y := WithLength(x, body);
    StaysKnown(x, body);
    WithLengthReads(x, body);
    LengthOfMessage(y, body);
    if |Message(y, body)| < INT_LIMIT {
      ShortRecv(INITIAL, Message(y, body), behind);
      BlockMessageRoundTrip(x, body);
    } else {
      var left := LongMessage(y, body, behind);
      if |body| >= 2 * INT_LIMIT {
        PlainDrive(AfterHead(y, body), left);
        WrongLengthShows(y, body);
      }
    }
  }

  lemma StaysKnown(x: Head, body: string)
    ensures Known(x) <==> Known(WithLength(x, body))
  {
  }

  lemma PlainDrive(st: State, behind: string)
    requires st.status == Body && !IsChunked(st.fields)
    ensures IntDrive(st, behind).st == Drive(st)
  {
    hide IsChunked, ReadBody, ReadChunk, IntChunk;
    BodyReturns(st);
    DriveStep(st);
    IntDriveStep(st, behind);
  }

  /** Just below, the same message is refused in one piece and read in two. */
  lemma LongMessageInTwo(x: Head, body: string, b1: string, b2: string, b: string)
    requires Known(x) && GoodFirst(x) && GoodFields(x.fields) && !IsChunked(x.fields)
    requires |body| < INT_LIMIT <= |Message(WithLength(x, body), body)| && WithinLimits(WithLength(x, body))
    ensures var y := WithLength(x, body);
            && Failed(IntRecv(INITIAL, Message(y, body), b).st)
            && IntFeed(INITIAL, [Message(y, ""), body], [b1, b2]) == Finished(y, body)
  {
    hide GoodHead, GoodFirst, GoodFields, WithLength, Message, IntRecv, Recv, IsChunked, ContentLength, CutShort,
      IntDrive;
    var y := WithLength(x, body);
    StaysKnown(x, body);
    WithLengthReads(x, body);
    LengthOfMessage(y, body);
    LengthOfMessage(y, "");
    var left := LongMessage(y, body, b);
    HeadIsRead(y, body);
    ShortRecv(INITIAL, Message(y, ""), b1);
    ShortRecv(AfterHead(y, ""), body, b2);
    FeedTwoInts(Message(y, ""), b1, body, b2);
  }

  /** Header and body of known length, one after the other. */
  lemma HeadIsRead(x: Head, body: string)
    requires Known(x) && GoodHead(x) && !IsChunked(x.fields) && 0 < |body| == ContentLength(x.fields) <= MAX_LENGTH
    ensures Recv(INITIAL, Message(x, "")) == AfterHead(x, "")
    ensures Recv(AfterHead(x, ""), body) == Finished(x, body)
  {
    hide Drive, Message, GoodHead, IsChunked, ContentLength;
    MessageStart(x, "");
    LengthOfMessage(x, "");
    InitialWith(Message(x, ""));
    SizedBodySoFar(x, body, 0);
    SizedBodySoFar(x, body, |body|);
    assert body[..0] == "" && body[..|body|] == body && "" + body == body;
    assert AfterHead(x, "").(body := "") == AfterHead(x, "") && With(AfterHead(x, ""), body) == AfterHead(x, body);
  }
}
