/**
 What the searches of `native/mars/comm/http.cc` see. They cast the length of
 the buffer to `int`, so from 2 GiB on they miss what is there. And the search
 for the end of a trailer starts behind the size line, but goes on for as many
 bytes as the whole buffer holds: it reads what stands in memory behind the
 contents, and may end a message there. The parser with these searches is
 related here to the one that looks at its contents only.
 */
module HttpInts {

  import opened Options
  import opened Strings
  import opened HttpText
  import opened Http
  import opened HttpCuts
  import opened HttpStreams

  const INT_LIMIT: nat := 0x8000_0000

  /** How much of n bytes is searched: what the cast leaves, nothing if that is negative. */
  function IntLength(n: nat): (m: nat)
    ensures m <= n && m < INT_LIMIT && (m == n <==> n < INT_LIMIT)
    ensures n >= INT_LIMIT ==> m == 0 || n - m >= 2 * INT_LIMIT
  {
    var low := n % 0x1_0000_0000;
    if low < INT_LIMIT then low else 0
  }

  /** A search in s bounded by the length of the buffer that s ends. */
  function Sought(s: string, length: nat, pat: string): (r: Option<nat>)
    requires pat != ""
    ensures r.Some? ==> r.value + |pat| <= |s| && r.value + |pat| <= IntLength(length)
  {
    var m := IntLength(length);
    StrnStr(if |s| <= m then s else s[..m], pat)
  }

  /** What is found is what an unbounded search finds, if that much of the buffer is seen. */
  lemma SoughtIsFound(s: string, pat: string)
    requires pat != "" && NUL !in pat
    ensures var found := StrnStr(s, pat);
            Sought(s, |s|, pat)
            == if found.Some? && found.value + |pat| <= IntLength(|s|) then found else None
  {
    var m := IntLength(|s|);
    var found := StrnStr(s, pat);
    if m < |s| {
      assert s == s[..m] + s[m..];
      if StrnStr(s[..m], pat).Some? {
        FoundIsStable(s[..m], s[m..], pat);
      } else if found.Some? && found.value + |pat| <= m {
        StrnStrIsFirst(s, pat, found.value);
        FirstInPrefix(s, pat, found.value, m);
        StrnStrIsFirst(s[..m], pat, found.value);
      }
    }
  }

  lemma FirstInPrefix(s: string, pat: string, i: nat, m: nat)
    requires FirstAt(s, pat, i) && i + |pat| <= m <= |s|
    ensures FirstAt(s[..m], pat, i)
  {
    assert s[..m][i..i + |pat|] == s[i..i + |pat|];
    assert s[..m][..i + |pat|] == s[..i + |pat|];
    forall j | 0 <= j < i
      ensures !At(s[..m], pat, j)
    {
      assert !At(s, pat, j);
      assert j + |pat| <= m ==> s[..m][j..j + |pat|] == s[j..j + |pat|];
    }
  }

  /** With more behind s, as far as n bytes: what is in s is found, and what is found else is not all in s. */
  lemma SoughtBehind(s: string, behind: string, n: nat)
    requires |s| <= n < INT_LIMIT
    ensures StrnStr(s, CRLF).Some? ==> Sought(s + behind, n, CRLF) == StrnStr(s, CRLF)
    ensures var x := Sought(s + behind, n, CRLF);
            StrnStr(s, CRLF) == None && x.Some? ==> x.value + 2 > |s|
  {
    hide StrnStr, FirstAt;
    var all := s + behind;
    var seen := if |all| <= n then all else all[..n];
    assert seen == s + seen[|s|..] && seen[..|s|] == s;
    var found, x := StrnStr(s, CRLF), StrnStr(seen, CRLF);
    if found.Some? {
      FoundIsStable(s, seen[|s|..], CRLF);
    } else if x.Some? && x.value + 2 <= |s| {
      StrnStrIsFirst(seen, CRLF, x.value);
      FirstInPrefix(seen, CRLF, x.value, |s|);
      StrnStrIsFirst(s, CRLF, x.value);
    }
  }

  // ----- the parser with these searches -----

  function IntFirstLine(st: State): Turn {
    FirstLineAt(st, Sought(st.buf, |st.buf|, CRLF), Sought(st.buf, |st.buf|, BLANK))
  }

  function IntFields(st: State): Turn { FieldsAt(st, Sought(st.buf, |st.buf|, BLANK)) }

  /** `behind` is what stands in memory behind the contents of the buffer. */
  function IntChunk(st: State, behind: string): Turn {
    var crlf := Sought(st.buf, |st.buf|, CRLF);
    ChunkAt(st, crlf, if crlf.Some? then Sought(st.buf[crlf.value + 2..] + behind, |st.buf|, CRLF) else None)
  }

  function IntPass(st: State, behind: string): Turn
    requires !Failed(st)
  {
    match st.status
    case Start => IntFirstLine(st)
    case FirstLine => IntFirstLine(st)
    case HeaderFields => IntFields(st)
    case Body => if IsChunked(st.fields) then IntChunk(st, behind) else ReadBody(st)
    case _ => Return(st)
  }

  lemma IntChunkProgresses(st: State, behind: string)
    requires st.status == Body && IntChunk(st, behind).Again?
    ensures Closer(IntChunk(st, behind).st, st)
  {
    hide Sought, ChunkAt;
    var crlf := Sought(st.buf, |st.buf|, CRLF);
    ChunkProgresses(st, crlf,
                    if crlf.Some? then Sought(st.buf[crlf.value + 2..] + behind, |st.buf|, CRLF) else None);
  }

  lemma IntPassProgresses(st: State, behind: string)
    requires !Failed(st) && IntPass(st, behind).Again?
    ensures Closer(IntPass(st, behind).st, st)
  {
    hide Sought, StatusFromString, RequestFromString, ParseFields, IsChunked, IntChunk, ReadBody;
    match st.status {
      case Body =>
        if IsChunked(st.fields) {
          IntChunkProgresses(st, behind);
        } else {
          BodyReturns(st);
        }
      case _ =>
    }
  }

  lemma IntPassShrinks(st: State, behind: string)
    requires !Failed(st)
    ensures |IntPass(st, behind).st.buf| <= |st.buf|
  {
    hide Sought, StatusFromString, RequestFromString, ParseFields, IsChunked, Strtoull, Trim, ContentLength,
      IsConnectionClose;
  }

  /**
   What stands behind the contents once a pass has left next: `Move` copies the
   rest of the contents to the front and leaves all other bytes as they are.
   */
  function Shifted(st: State, next: State, behind: string): string
    requires |next.buf| <= |st.buf|
  {
    st.buf[|next.buf|..] + behind
  }

  /** A state of the parser and what stands behind the contents of its buffer. */
  datatype Held = Held(st: State, behind: string)

  function IntDrive(st: State, behind: string): Held
    requires !Failed(st)
    decreases Rank(st.status), |st.buf|
  {
    IntPassShrinks(st, behind);
    match IntPass(st, behind)
    case Return(next) => Held(next, Shifted(st, next, behind))
    case Again(next) =>
      IntPassProgresses(st, behind);
      IntDrive(next, Shifted(st, next, behind))
  }

  lemma IntDriveStep(st: State, behind: string)
    requires !Failed(st)
    ensures var r := IntPass(st, behind);
            |r.st.buf| <= |st.buf| &&
            (r.Again? ==> !Failed(r.st) && IntDrive(st, behind) == IntDrive(r.st, Shifted(st, r.st, behind)))
    ensures var r := IntPass(st, behind);
            r.Return? ==> IntDrive(st, behind) == Held(r.st, Shifted(st, r.st, behind))
  {
    hide IntPass;
    IntPassShrinks(st, behind);
    if IntPass(st, behind).Again? {
      IntPassProgresses(st, behind);
    }
  }

  /** `Parser::Recv`; `behind` is what stands behind the contents once data is written. */
  function IntRecv(st: State, data: string, behind: string): Held
    requires !Failed(st)
  {
    if data == "" then
      Held(if IsConnectionClose(st.fields) && st.status == Body then st.(status := End) else st, behind)
    else IntDrive(With(st, data), behind)
  }

  /** Call after call, each with what stands behind the contents then. */
  function IntFeed(st: State, pieces: seq<string>, behinds: seq<string>): State
    requires |behinds| == |pieces|
    decreases |pieces|
  {
    if pieces == [] || Failed(st) then st
    else IntFeed(IntRecv(st, pieces[0], behinds[0]).st, pieces[1..], behinds[1..])
  }

  // ----- below 2 GiB: one call -----

  /** The end of a trailer is found behind the contents. */
  predicate Early(st: State, behind: string) {
    Open(st) && Sought(st.buf[StrnStr(st.buf, CRLF).value + 2..] + behind, |st.buf|, CRLF).Some?
  }

  /** The message is taken for complete, and all of the buffer for part of it. */
  function Ended(st: State): State { st.(status := End, buf := "") }

  lemma ShortChunk(st: State, behind: string)
    requires st.status == Body && IsChunked(st.fields) && |st.buf| < INT_LIMIT
    ensures IntChunk(st, behind) == if Early(st, behind) then Return(Ended(st)) else ReadChunk(st)
  {
    hide StrnStr, Strtoull, Trim, Sought, IsChunked;
    assert Sought(st.buf, |st.buf|, CRLF) == StrnStr(st.buf, CRLF) by { AllSought(st.buf, CRLF); }
    if StrnStr(st.buf, CRLF).Some? {
      SoughtBehind(st.buf[StrnStr(st.buf, CRLF).value + 2..], behind, |st.buf|);
    }
  }

  lemma AllSought(s: string, pat: string)
    requires pat != "" && |s| < INT_LIMIT
    ensures Sought(s, |s|, pat) == StrnStr(s, pat)
  {
  }

  lemma ShortPass(st: State, behind: string)
    requires !Failed(st) && |st.buf| < INT_LIMIT
    ensures IntPass(st, behind) == if Early(st, behind) then Return(Ended(st)) else Pass(st)
  {
    hide StrnStr, FirstLineAt, FieldsAt, IntChunk, ReadChunk, ReadBody, IsChunked, Sought;
    AllSought(st.buf, CRLF);
    AllSought(st.buf, BLANK);
    if st.status == Body && IsChunked(st.fields) {
      ShortChunk(st, behind);
    }
  }

  lemma PassShrinks(st: State)
    requires !Failed(st)
    ensures |Pass(st).st.buf| <= |st.buf|
  {
    hide StrnStr, StatusFromString, RequestFromString, ParseFields, IsChunked, Strtoull, Trim, ContentLength,
      IsConnectionClose;
  }

  /** Going round from st with these bytes behind the contents, the end of a trailer is found behind them. */
  predicate EndsEarly(st: State, behind: string)
    decreases Rank(st.status), |st.buf|
  {
    !Failed(st) && (Early(st, behind) || (Pass(st).Again? && GoesOnToEndEarly(st, behind)))
  }

  predicate GoesOnToEndEarly(st: State, behind: string)
    requires !Failed(st) && Pass(st).Again?
    decreases Rank(st.status), |st.buf|, 0
  {
    PassProgresses(st);
    PassShrinks(st);
    EndsEarly(Pass(st).st, Shifted(st, Pass(st).st, behind))
  }

  lemma OpenWaits(st: State)
    requires Open(st)
    ensures Pass(st) == Return(st)
  {
    hide StrnStr, Strtoull, Trim, IsChunked;
  }

  lemma {:induction false} EndsOpen(st: State, behind: string)
    requires EndsEarly(st, behind)
    ensures Open(Drive(st))
    decreases Rank(st.status), |st.buf|
  {
    hide Pass, Open, Drive;
    DriveStep(st);
    if Early(st, behind) {
      OpenWaits(st);
    } else {
      PassProgresses(st);
      PassShrinks(st);
      EndsOpen(Pass(st).st, Shifted(st, Pass(st).st, behind));
    }
  }

  /** Below 2 GiB the code does what the parser does that looks at its contents only, or ends early. */
  lemma {:induction false} ShortDrive(st: State, behind: string)
    requires !Failed(st) && |st.buf| < INT_LIMIT
    ensures IntDrive(st, behind).st == if EndsEarly(st, behind) then Ended(Drive(st)) else Drive(st)
    ensures |Drive(st).buf| <= |st.buf|
    decreases Rank(st.status), |st.buf|
  {
    hide Pass, IntPass, Open, Drive, IntDrive, Early;
    ShortPass(st, behind);
    PassShrinks(st);
    DriveStep(st);
    IntDriveStep(st, behind);
    if Early(st, behind) {
      EarlyIsOpen(st, behind);
      OpenWaits(st);
    } else if Pass(st).Again? {
      PassProgresses(st);
      ShortDrive(Pass(st).st, Shifted(st, Pass(st).st, behind));
    }
  }

  lemma EarlyIsOpen(st: State, behind: string)
    requires Early(st, behind)
    ensures Open(st)
  {
  }

  /** Receiving data in st, with these bytes behind it, ends a message whose trailer has not arrived. */
  predicate CutShort(st: State, data: string, behind: string) { data != "" && EndsEarly(With(st, data), behind) }

  /**
   Below 2 GiB, for every state, every data and all that can stand behind it:
   what the code does is what reading the contents alone does, except that a
   trailer may be taken for complete.
   */
  lemma ShortRecv(st: State, data: string, behind: string)
    requires !Failed(st) && |st.buf| + |data| < INT_LIMIT
    ensures IntRecv(st, data, behind).st == if CutShort(st, data, behind) then Ended(Recv(st, data)) else Recv(st, data)
    ensures CutShort(st, data, behind) ==> Open(Recv(st, data))
    ensures |Recv(st, data).buf| <= |st.buf| + |data|
  {
    hide Drive, IntDrive, EndsEarly, Open;
    if data != "" {
      ShortDrive(With(st, data), behind);
      if EndsEarly(With(st, data), behind) {
        EndsOpen(With(st, data), behind);
      }
    }
  }

  // ----- below 2 GiB: runs -----

  /** No call brings the buffer to 2 GiB: `recvbuf_.Length() + _length` before each call. */
  ghost predicate Fits(st: State, pieces: seq<string>, behinds: seq<string>)
    requires |behinds| == |pieces|
    decreases |pieces|
  {
    pieces == [] || Failed(st)
    || (|st.buf| + |pieces[0]| < INT_LIMIT && Fits(IntRecv(st, pieces[0], behinds[0]).st, pieces[1..], behinds[1..]))
  }

  /** No call of the run finds the end of a trailer behind its contents. */
  ghost predicate Quiet(st: State, pieces: seq<string>, behinds: seq<string>)
    requires |behinds| == |pieces|
    decreases |pieces|
  {
    pieces == [] || Failed(st)
    || (!CutShort(st, pieces[0], behinds[0]) && Quiet(Recv(st, pieces[0]), pieces[1..], behinds[1..]))
  }

  lemma {:induction false} ShortFeed(st: State, pieces: seq<string>, behinds: seq<string>)
    requires |behinds| == |pieces| && Fits(st, pieces, behinds) && Quiet(st, pieces, behinds)
    ensures IntFeed(st, pieces, behinds) == Feed(st, pieces)
    decreases |pieces|
  {
    hide IntRecv, Recv, CutShort;
    if pieces != [] && !Failed(st) {
      ShortRecv(st, pieces[0], behinds[0]);
      ShortFeed(Recv(st, pieces[0]), pieces[1..], behinds[1..]);
    }
  }

  lemma {:induction false} FitsPrefix(st: State, pieces: seq<string>, behinds: seq<string>, n: nat)
    requires |behinds| == |pieces| && Fits(st, pieces, behinds) && n <= |pieces|
    ensures Fits(st, pieces[..n], behinds[..n])
    decreases n
  {
    hide IntRecv;
    if n > 0 && !Failed(st) {
      FitsPrefix(IntRecv(st, pieces[0], behinds[0]).st, pieces[1..], behinds[1..], n - 1);
      assert pieces[..n][1..] == pieces[1..][..n - 1] && behinds[..n][1..] == behinds[1..][..n - 1];
    }
  }

  lemma {:induction false} QuietPrefix(st: State, pieces: seq<string>, behinds: seq<string>, n: nat)
    requires |behinds| == |pieces| && Quiet(st, pieces, behinds) && n <= |pieces|
    ensures Quiet(st, pieces[..n], behinds[..n])
    decreases n
  {
    hide Recv, CutShort;
    if n > 0 && !Failed(st) {
      QuietPrefix(Recv(st, pieces[0]), pieces[1..], behinds[1..], n - 1);
      assert pieces[..n][1..] == pieces[1..][..n - 1] && behinds[..n][1..] == behinds[1..][..n - 1];
    }
  }

  lemma {:induction false} QuietLast(st: State, pieces: seq<string>, behinds: seq<string>, last: string, behind: string)
    requires |behinds| == |pieces| && Quiet(st, pieces, behinds)
    requires !Failed(Feed(st, pieces)) ==> !CutShort(Feed(st, pieces), last, behind)
    ensures Quiet(st, pieces + [last], behinds + [behind])
    decreases |pieces|
  {
    hide Recv, CutShort;
    var all, memory := pieces + [last], behinds + [behind];
    if pieces == [] {
      assert all[1..] == [] && memory[1..] == [];
    } else if !Failed(st) {
      QuietLast(Recv(st, pieces[0]), pieces[1..], behinds[1..], last, behind);
      assert all[1..] == pieces[1..] + [last] && memory[1..] == behinds[1..] + [behind];
    }
  }

  /** A stream below 2 GiB fits, however it is cut. */
  lemma {:induction false} ShortStreamFits(st: State, pieces: seq<string>, behinds: seq<string>)
    requires |behinds| == |pieces| && |st.buf| + |Join(pieces)| < INT_LIMIT
    ensures Fits(st, pieces, behinds)
    decreases |pieces|
  {
    hide IntRecv, Recv, CutShort;
    if pieces != [] && !Failed(st) {
      ShortRecv(st, pieces[0], behinds[0]);
      ShortStreamFits(IntRecv(st, pieces[0], behinds[0]).st, pieces[1..], behinds[1..]);
    }
  }
}
