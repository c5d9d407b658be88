/**
 Whole streams: any way of cutting a stream into calls of `Recv`, for a parser
 that looks at the contents of its buffer only.
 */
module HttpStreams {

  import opened Options
  import opened HttpText
  import opened Http
  import opened HttpCuts

  /** One `Recv` after another, until one reports an error. */
  function Feed(st: State, pieces: seq<string>): State
    decreases |pieces|
  {
    if pieces == [] || Failed(st) then st else Feed(Recv(st, pieces[0]), pieces[1..])
  }

  function Join(pieces: seq<string>): string {
    if pieces == [] then "" else pieces[0] + Join(pieces[1..])
  }

  /** No proper prefix is refused. */
  ghost predicate Unfailing(s: string) {
    forall k :: 0 < k < |s| ==> !Failed(Recv(INITIAL, s[..k]))
  }

  lemma {:induction false} FeedLast(st: State, pieces: seq<string>, last: string)
    ensures Feed(st, pieces + [last]) == Feed(Feed(st, pieces), [last])
    decreases |pieces|
  {
    if pieces == [] {
      assert [] + [last] == [last];
    } else if !Failed(st) {
      assert (pieces + [last])[0] == pieces[0] && (pieces + [last])[1..] == pieces[1..] + [last];
      FeedLast(Recv(st, pieces[0]), pieces[1..], last);
    }
  }

  lemma {:induction false} JoinLast(pieces: seq<string>, last: string)
    ensures Join(pieces + [last]) == Join(pieces) + last
  {
    if pieces == [] {
      assert [] + [last] == [last] && Join([last]) == last + Join([]);
    } else {
      assert (pieces + [last])[0] == pieces[0] && (pieces + [last])[1..] == pieces[1..] + [last];
      JoinLast(pieces[1..], last);
    }
  }

  lemma {:induction false} JoinConcat(a: seq<string>, b: seq<string>)
    ensures Join(a + b) == Join(a) + Join(b)
    decreases |a|
  {
    if a == [] {
      assert a + b == b;
    } else {
      assert (a + b)[0] == a[0] && (a + b)[1..] == a[1..] + b;
      JoinConcat(a[1..], b);
    }
  }

  // ----- entering the body -----

  /** The state in which a buffer that starts a message enters the body, if it does. */
  function BodyEntry(st: State): Option<State> {
    var line := ReadFirstLine(st);
    if line.Return? then None
    else if line.st.status == Body then Some(line.st)
    else if ReadFields(line.st).Return? then None
    else Some(ReadFields(line.st).st)
  }

  lemma EntryDrives(st: State)
    requires IsFirst(st)
    ensures match BodyEntry(st)
            case None => Drive(st).fields == st.fields
            case Some(x) => x.status == Body && Drive(st) == Drive(x) && Drive(st).fields == x.fields
  {
    hide StrnStr, ReadFirstLine, ReadFields, ReadChunk, ReadBody, Drive;
    DriveStep(st);
    if ReadFirstLine(st).Again? {
      FirstLineEnds(st);
      var next := ReadFirstLine(st).st;
      if next.status == Body {
        BodyKeepsHeader(next);
      } else {
        FieldsEntry(next);
      }
    } else {
      FirstLineAwaits(st);
      FirstLineFields(st);
    }
  }

  lemma FirstLineFields(st: State)
    requires ReadFirstLine(st).Return?
    ensures ReadFirstLine(st).st.fields == st.fields
  {
    hide StrnStr, StatusFromString, RequestFromString;
  }

  lemma FieldsEntry(st: State)
    requires st.status == HeaderFields
    ensures match ReadFields(st)
            case Return(_) => Drive(st).fields == st.fields
            case Again(x) => x.status == Body && Drive(st) == Drive(x) && Drive(st).fields == x.fields
  {
    FieldsTurn(st);
    var turn := ReadFields(st);
    assert turn.Return? ==> turn.st.fields == st.fields;
    hide ReadFields, ReadChunk, ReadBody, Drive;
    DriveStep(st);
    if turn.Again? {
      BodyKeepsHeader(turn.st);
    }
  }

  lemma EntryIsStable(st: State, more: string)
    requires IsFirst(st) && BodyEntry(st).Some? && !SplitsBlankLine(st, more)
    ensures BodyEntry(With(st, more)) == Some(With(BodyEntry(st).value, more))
  {
    FirstLineTurn(st, more);
    hide StrnStr, ReadFirstLine, ReadFields;
    var next := ReadFirstLine(st).st;
    if next.status != Body {
      FieldsAreStable(next, more);
      FieldsTurn(next);
    }
  }

  lemma HeaderlessIsStable(s: string, more: string)
    requires Headerless(s)
    ensures Headerless(s + more)
  {
    hide StrnStr;
    FoundIsStable(s, more, CRLF);
    FoundIsStable(s, more, BLANK);
  }

  // ----- any fragmentation -----

  /** A stream that ends neither in the first line's blank line nor with the connection. */
  predicate Delimited(s: string)
    requires s != ""
  {
    !Headerless(s) && !CloseDelimited(Recv(INITIAL, s).fields)
  }

  lemma NoFieldsNotClose()
    ensures !CloseDelimited([])
  {
  }

  lemma InitialWith(s: string)
    requires s != ""
    ensures With(INITIAL, s).buf == s && Recv(INITIAL, s) == Drive(With(INITIAL, s))
  {
    assert "" + s == s;
  }

  /** A prefix of such a stream is one, and may be followed by any of the rest. */
  lemma PrefixDelimited(s: string, more: string)
    requires s != "" && Delimited(s + more) && !Failed(Recv(INITIAL, s))
    ensures Delimited(s) && !CutMatters(With(INITIAL, s), more)
  {
    hide Drive, Headerless, CloseDelimited, ReadFirstLine, ReadFields;
    InitialWith(s);
    InitialWith(s + more);
    var x := With(INITIAL, s);
    assert With(x, more) == With(INITIAL, s + more);
    if Headerless(s) {
      HeaderlessIsStable(s, more);
    }
    EntryDrives(x);
    EntryDrives(With(x, more));
    NoFieldsNotClose();
    if BodyEntry(x).Some? {
      EntryIsStable(x, more);
    }
  }

  lemma UnfailingPrefix(s: string, more: string)
    requires Unfailing(s + more) && s != "" && more != ""
    ensures Unfailing(s) && !Failed(Recv(INITIAL, s))
  {
    assert (s + more)[..|s|] == s;
    forall k | 0 < k < |s|
      ensures !Failed(Recv(INITIAL, s[..k]))
    {
      assert (s + more)[..k] == s[..k];
    }
  }

  /** However the stream is cut, such a parser ends up as if it had come in one piece. */
  lemma {:induction false} FragmentationIrrelevant(pieces: seq<string>)
    requires pieces != [] && "" !in pieces
    requires Join(pieces) != "" && Unfailing(Join(pieces)) && Delimited(Join(pieces))
    ensures Feed(INITIAL, pieces) == Recv(INITIAL, Join(pieces))
    decreases |pieces|
  {
    hide Unfailing, Delimited, Recv, CutMatters;
    var n := |pieces| - 1;
    var init, last := pieces[..n], pieces[n];
    assert pieces == init + [last];
    assert last in pieces;
    JoinLast(init, last);
    FeedLast(INITIAL, init, last);
    if init == [] {
      assert Join(init) + last == last;
    } else {
      assert forall p :: p in init ==> p in pieces;
      assert init[0] in init;
      var s := Join(init);
      assert s != "";
      UnfailingPrefix(s, last);
      PrefixDelimited(s, last);
      FragmentationIrrelevant(init);
      CutIndependence(INITIAL, s, last);
    }
  }
}
