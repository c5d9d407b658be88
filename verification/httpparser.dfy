/**
 The loops and objects of `native/mars/comm/http.cc` and of the tokenizer of
 `native/mars/comm/strutil.h`, proved against the functions of the other HTTP
 modules.
 */
module HttpParsers {

  import opened Options
  import opened Sequences
  import opened Strings
  import opened AutoBuffers
  import opened HttpText
  import opened Http
  import opened HttpCuts
  import opened HttpInts
  import opened HttpMessages
  import opened HttpBodies

  // ----- text -----

  lemma {:induction false} TooShortToHold(s: string, pat: string, k: nat)
    requires k <= |s| < k + |pat|
    ensures FindTag(s, pat, k) == |s|
    decreases |s| - k
  {
    if k < |s| {
      TooShortToHold(s, pat, k + 1);
    }
  }

  /** `string_strnstr` in memory from some point on, bounded by a length that is cast to `int`. */
  method StringStrnStr(src: string, sfind: string, length: nat) returns (r: Option<nat>)
    requires sfind != ""
    ensures r == Sought(src, length, sfind)
  {
    var low := length % 0x1_0000_0000;
    var pos1: int := if low < 0x8000_0000 then low else low - 0x1_0000_0000;
    // The characters searched; none if the length turned negative.
    ghost var seen := if |src| <= IntLength(length) then src else src[..IntLength(length)];
    var l1 := IndexOf(src, 0, NUL);
    pos1 := if pos1 > l1 then l1 else pos1;
    ghost var text := CPart(seen);
    SeenPart(src, length, l1);
    var i := 0;
    while pos1 >= |sfind|
      invariant i + pos1 == |text| || (pos1 < 0 && i == 0 && text == "")
      invariant i <= |text| && FindTag(text, sfind, i) == FindTag(text, sfind, 0)
    {
      var same := sfind <= src[i..];
      SameAtStart(src, text, i, sfind);
      if same {
        return Some(i);
      }
      pos1, i := pos1 - 1, i + 1;
    }
    TooShortToHold(text, sfind, i);
    return None;
  }

  lemma SeenPart(src: string, length: nat, l1: nat)
    requires l1 == IndexOf(src, 0, NUL)
    ensures var m := IntLength(length); var seen := if |src| <= m then src else src[..m];
            CPart(seen) <= src && |CPart(seen)| == if m < l1 then m else l1
  {
    var m := IntLength(length);
    if m < |src| {
      var seen := src[..m];
      if l1 < m {
        assert seen[0..l1] == src[0..l1];
        FirstIndex(seen, 0, l1, NUL);
      } else {
        assert forall k :: 0 <= k < m ==> seen[k] == src[0..l1][k];
        assert seen[0..] == seen;
        NoIndex(seen, 0, NUL);
      }
    }
  }

  lemma SameAtStart(s: string, t: string, i: nat, pat: string)
    requires t <= s && i + |pat| <= |t|
    ensures pat <= s[i..] <==> pat <= t[i..]
  {
    assert s[i..][..|pat|] == t[i..][..|pat|];
  }

  lemma {:induction false} FindTagFrom(s: string, tag: string, k: nat, i: nat)
    requires k + i <= |s|
    ensures FindTag(s[k..], tag, i) + k == FindTag(s, tag, k + i)
    decreases |s| - k - i
  {
    assert s[k..][i..] == s[k + i..];
    if k + i < |s| {
      FindTagFrom(s, tag, k, i + 1);
    }
  }

  lemma NextHeaderLine(s: string, k: nat, h: Fields)
    requires k <= |s|
    ensures var end := FindTag(s, CRLF, k);
            ParseFields(s[k..], h) == if end == |s| then h else ParseFields(s[end + 2..], AddLine(h, s[k..end]))
  {
    hide AddLine, FindTag;
    var end := FindTag(s, CRLF, k);
    FindTagFrom(s, CRLF, k, 0);
    if end < |s| {
      assert s[k..][..end - k] == s[k..end];
      assert s[k..][end - k + 2..] == s[end + 2..];
    }
  }

  /** The loop over header lines. */
  method ParserHeaders(headers: string, was: Fields) returns (h: Fields)
    ensures h == ParseFields(headers, was)
  {
    hide ParseFields, FindTag, AddLine;
    h := was;
    var begin := 0;
    var end := FindTag(headers, CRLF, 0);
    assert headers[0..] == headers;
    NextHeaderLine(headers, 0, h);
    while end < |headers|
      invariant 0 <= begin <= end <= |headers| && end == FindTag(headers, CRLF, begin)
      invariant ParseFields(headers[begin..], h) == ParseFields(headers, was)
      decreases |headers| - begin
    {
      NextHeaderLine(headers, begin, h);
      h := AddLine(h, headers[begin..end]);
      begin := end + 2;
      end := FindTag(headers, CRLF, begin);
    }
    NextHeaderLine(headers, begin, h);
  }

  lemma DelimiterSkipped(s: string, i: nat, d: char)
    requires i < |s| && s[i] == d
    ensures Tokens(s[i..], d) == Tokens(s[i + 1..], d)
  {
    assert s[i..][1..] == s[i + 1..];
  }

  lemma NoMoreTokens(s: string, d: char)
    requires s == ""
    ensures Tokens(s, d) == []
  {
  }

  lemma TokenTaken(s: string, i: nat, d: char)
    requires i < |s| && s[i] != d
    ensures var j := IndexOf(s, i, d); i < j && Tokens(s[i..], d) == [s[i..j]] + Tokens(s[j..], d)
  {
    var j := IndexOf(s, i, d);
    IndexFrom(s, i, d);
    assert s[i..][..j - i] == s[i..j] && s[i..][j - i..] == s[j..];
  }

  class Tokenizer {
    var offset_: nat
    var token_: string
    const string_: string
    const delimiter: char

    ghost predicate Valid()
      reads this
    {
      offset_ <= |string_|
    }

    /** The tokens still to come. */
    ghost function Rest(): seq<string>
      requires Valid()
      reads this
    {
      Tokens(string_[offset_..], delimiter)
    }

    constructor (s: string, d: char)
      ensures Valid() && string_ == s && delimiter == d && Rest() == Tokens(s, d)
    {
      offset_, token_, string_, delimiter := 0, "", s, d;
      new;
      assert string_[0..] == string_;
    }

    method NextToken() returns (found: bool)
      requires Valid()
      modifies this
      ensures Valid() && old(offset_) <= offset_
      ensures found ==> old(Rest()) == [token_] + Rest() && old(offset_) < offset_
      ensures !found ==> old(Rest()) == []
    {
      hide Tokens;
      var i := offset_;
      while i < |string_| && string_[i] == delimiter
        invariant offset_ == old(offset_) <= i <= |string_|
        invariant Tokens(string_[i..], delimiter) == old(Rest())
      {
        DelimiterSkipped(string_, i, delimiter);
        i := i + 1;
      }
      if i == |string_| {
        NoMoreTokens(string_[i..], delimiter);
        offset_ := |string_|;
        return false;
      }
      var j := IndexOf(string_, i, delimiter);
      TokenTaken(string_, i, delimiter);
      token_ := string_[i..j];
      offset_ := j;
      return true;
    }
  }

  lemma IndexFrom(s: string, k: nat, c: char)
    requires k < |s| && s[k] != c
    ensures k < IndexOf(s, k, c) && IndexOf(s[k..], 0, c) == IndexOf(s, k, c) - k
  {
    var i := IndexOf(s, k, c);
    var t := s[k..];
    if i < |s| {
      assert t[0..i - k] == s[k..i];
      FirstIndex(t, 0, i - k, c);
    } else {
      assert t[0..] == s[k..i];
      NoIndex(t, 0, c);
    }
  }

  method SplitToken(s: string, d: char) returns (ts: seq<string>)
    ensures ts == Tokens(s, d)
  {
    hide Tokens;
    var tokenizer := new Tokenizer(s, d);
    ts := [];
    var found := tokenizer.NextToken();
    while found
      invariant tokenizer.Valid() && fresh(tokenizer)
      invariant tokenizer.string_ == s && tokenizer.delimiter == d
      invariant found ==> Tokens(s, d) == ts + ([tokenizer.token_] + tokenizer.Rest())
      invariant !found ==> Tokens(s, d) == ts
      decreases |s| - tokenizer.offset_, found
    {
      ghost var rest := tokenizer.Rest();
      OneMoreToken(ts, tokenizer.token_, rest);
      ts := ts + [tokenizer.token_];
      found := tokenizer.NextToken();
    }
  }

  lemma OneMoreToken(ts: seq<string>, t: string, rest: seq<string>)
    ensures ts + ([t] + rest) == (ts + [t]) + rest
    ensures rest == [] ==> (ts + [t]) + rest == ts + [t]
  {
  }

  // ----- the parser -----

  /** Every outcome of reading the first line. */
  lemma FirstLineCases(st: State, crlf: Option<nat>, blank: Option<nat>)
    requires crlf.Some? ==> crlf.value + 2 <= |st.buf|
    requires blank.Some? ==> blank.value + 4 <= |st.buf|
    ensures var r := FirstLineAt(st, crlf, blank);
            if crlf == None then
              r == Return(st.(status := if FIRST_LINE_LIMIT < |st.buf| then FirstLineError else FirstLine))
            else
              var line := st.buf[..crlf.value + 2];
              var isStatus := "HTTP/" <= line;
              var response, request := StatusFromString(line, st.response), RequestFromString(line);
              if isStatus && response == None then
                r == Return(st.(status := FirstLineError, response := StatusRefused(line, st.response)))
              else if !isStatus && request == None then
                r == Return(st.(status := FirstLineError, request := RequestRefused(line, st.request)))
              else
                r == Again(st.(status := if blank == crlf then Body else HeaderFields,
                               response := if isStatus then response.value else st.response,
                               request := if isStatus then st.request else request.value,
                               mode := if isStatus then RespondMode else RequestMode,
                               firstLineLength := |line|,
                               buf := st.buf[if blank == crlf then |line| + 2 else |line|..]))
  {
    hide StatusFromString, RequestFromString, StatusRefused, RequestRefused;
  }

  /** `recvbuf_` is only appended to and shortened from the front, so its position stays at its end. */
  class Parser {
    var status: Status
    var mode: Mode
    var request: RequestLine
    var response: StatusLine
    var fields: Fields
    var body: string
    var firstLineLength: nat
    var headerLength: nat
    const recvbuf: AutoBuffer<char>

    ghost predicate Valid()
      reads this, recvbuf
    {
      recvbuf.Valid() && recvbuf.pos_ == recvbuf.length_
    }

    ghost function Abstract(): State
      requires Valid()
      reads this, recvbuf, recvbuf.parray_
    {
      State(status, recvbuf.Contents(), mode, request, response, fields, body, firstLineLength, headerLength)
    }

    constructor ()
      ensures Valid() && Abstract() == INITIAL && fresh(recvbuf) && fresh(recvbuf.parray_)
    {
      status, mode, request, response := Start, RespondMode, INITIAL.request, INITIAL.response;
      fields, body, firstLineLength, headerLength := [], "", 0, 0;
      recvbuf := new AutoBuffer(NUL, 128);
    }

    /** Drops what has been read, and all there is if that was more. */
    method Consume(n: nat)
      requires Valid()
      modifies recvbuf, recvbuf.parray_
      ensures Valid() && recvbuf.parray_ == old(recvbuf.parray_) && recvbuf.length_ <= old(recvbuf.length_)
      ensures recvbuf.Contents() == Dropped(old(recvbuf.Contents()), n)
      ensures recvbuf.Behind() == old(recvbuf.parray_[..])[recvbuf.length_..]
    {
      recvbuf.MoveDown(n);
    }

    method ParseFirstLine(line: string) returns (ok: bool)
      modifies `request, `response, `mode
      ensures ok == if "HTTP/" <= line then StatusFromString(line, old(response)).Some?
                    else RequestFromString(line).Some?
      ensures request == if "HTTP/" <= line then old(request)
                         else if ok then RequestFromString(line).value else RequestRefused(line, old(request))
      ensures response == if !("HTTP/" <= line) then old(response)
                          else if ok then StatusFromString(line, old(response)).value
                          else StatusRefused(line, old(response))
      ensures mode == if !ok then old(mode) else if "HTTP/" <= line then RespondMode else RequestMode
    {
      hide StatusFromString, RequestFromString, StatusRefused, RequestRefused;
      if "HTTP/" <= line {
        var parsed := StatusFromString(line, response);
        if parsed == None {
          response := StatusRefused(line, response);
          return false;
        }
        response, mode := parsed.value, RespondMode;
      } else {
        var parsed := RequestFromString(line);
        if parsed == None {
          request := RequestRefused(line, request);
          return false;
        }
        request, mode := parsed.value, RequestMode;
      }
      return true;
    }

    method FirstLinePass() returns (again: bool)
      requires Valid() && (status == Start || status == FirstLine)
      modifies this, recvbuf, recvbuf.parray_
      ensures Valid() && recvbuf.parray_ == old(recvbuf.parray_) && recvbuf.length_ <= old(recvbuf.length_)
      ensures recvbuf.Behind() == old(recvbuf.parray_[..])[recvbuf.length_..]
      ensures IntFirstLine(old(Abstract())) == if again then Again(Abstract()) else Return(Abstract())
    {
      hide Sought, StatusFromString, RequestFromString, StatusRefused, RequestRefused, FirstLineAt;
      var buf := recvbuf.parray_[..recvbuf.length_];
      var pos := StringStrnStr(buf, CRLF, |buf|);
      FirstLineCases(Abstract(), pos, Sought(buf, |buf|, BLANK));
      if pos == None {
        status := if FIRST_LINE_LIMIT < |buf| then FirstLineError else FirstLine;
        return false;
      }
      var length := pos.value + 2;
      var firstline := buf[..length];
      var ok := ParseFirstLine(firstline);
      if !ok {
        status := FirstLineError;
        return false;
      }
      var blank := StringStrnStr(buf, BLANK, |buf|);
      status := if blank == pos then Body else HeaderFields;
      Consume(if blank == pos then length + 2 else length);
      firstLineLength := length;
      return true;
    }

    method FieldsPass() returns (again: bool)
      requires Valid() && status == HeaderFields
      modifies this, recvbuf, recvbuf.parray_
      ensures Valid() && recvbuf.parray_ == old(recvbuf.parray_) && recvbuf.length_ <= old(recvbuf.length_)
      ensures recvbuf.Behind() == old(recvbuf.parray_[..])[recvbuf.length_..]
      ensures IntFields(old(Abstract())) == if again then Again(Abstract()) else Return(Abstract())
    {
      hide Sought, ParseFields;
      var buf := recvbuf.parray_[..recvbuf.length_];
      var pos := StringStrnStr(buf, BLANK, |buf|);
      if pos == None {
        if FIELDS_LIMIT < |buf| {
          status := HeaderFieldsError;
        }
        return false;
      }
      var length := pos.value + 4;
      fields := ParserHeaders(buf[..length], fields);
      status := Body;
      Consume(length);
      headerLength := length;
      return true;
    }

    method ChunkPass(outside: string) returns (again: bool)
      requires Valid() && status == Body
      modifies this, recvbuf, recvbuf.parray_
      ensures Valid() && recvbuf.parray_ == old(recvbuf.parray_) && recvbuf.length_ <= old(recvbuf.length_)
      ensures recvbuf.Behind() == old(recvbuf.parray_[..])[recvbuf.length_..]
      ensures IntChunk(old(Abstract()), old(recvbuf.Behind()) + outside)
              == if again then Again(Abstract()) else Return(Abstract())
    {
      hide Sought, Strtoull, Trim;
      var buf := recvbuf.parray_[..recvbuf.length_];
      var sizeEnd := StringStrnStr(buf, CRLF, |buf|);
      if sizeEnd == None {
        return false;
      }
      var size := Strtoull(Trim(buf[..sizeEnd.value]), 16);
      if size > MAX_LENGTH {
        status := BodyError;
        return false;
      }
      if size == 0 {
        again := LastChunkPass(sizeEnd.value, outside);
        return;
      }
      if |buf| < size + sizeEnd.value + 4 {
        return false;
      }
      var begin := sizeEnd.value + 2;
      var end := begin + size;
      if buf[end..end + 2] != CRLF {
        status := BodyError;
        return false;
      }
      body := body + buf[begin..end];
      Consume(end + 2);
      return recvbuf.length_ != 0;
    }

    /** The search for the trailer's end is bounded by the whole length, so it goes on behind the contents. */
    method LastChunkPass(sizeEnd: nat, outside: string) returns (again: bool)
      requires Valid() && status == Body && sizeEnd + 2 <= recvbuf.length_
      modifies this, recvbuf, recvbuf.parray_
      ensures Valid() && recvbuf.parray_ == old(recvbuf.parray_) && recvbuf.length_ <= old(recvbuf.length_)
      ensures recvbuf.Behind() == old(recvbuf.parray_[..])[recvbuf.length_..]
      ensures var st := old(Abstract());
              Strtoull(Trim(st.buf[..sizeEnd]), 16) == 0 ==>
                ChunkAt(st, Some(sizeEnd),
                        Sought(st.buf[sizeEnd + 2..] + (old(recvbuf.Behind()) + outside), |st.buf|, CRLF))
                == if again then Again(Abstract()) else Return(Abstract())
    {
      hide Sought, Strtoull, Trim;
      ghost var st := Abstract();
      if recvbuf.length_ < sizeEnd + 4 {
        return false;
      }
      var begin := sizeEnd + 2;
      var memory := recvbuf.parray_[..] + outside;
      SplitMemory(recvbuf.parray_[..], recvbuf.length_, begin, outside);
      var trailerEnd := StringStrnStr(memory[begin..], CRLF, recvbuf.length_);
      if trailerEnd == None {
        return false;
      }
      status := End;
      Consume(begin + trailerEnd.value + 2);
      return false;
    }

    method BodyPass() returns (again: bool)
      requires Valid() && status == Body
      modifies this, recvbuf, recvbuf.parray_
      ensures Valid() && recvbuf.parray_ == old(recvbuf.parray_) && recvbuf.length_ <= old(recvbuf.length_)
      ensures recvbuf.Behind() == old(recvbuf.parray_[..])[recvbuf.length_..]
      ensures ReadBody(old(Abstract())) == if again then Again(Abstract()) else Return(Abstract())
    {
      hide IsConnectionClose, ContentLength;
      var buf := recvbuf.parray_[..recvbuf.length_];
      var length := ContentLength(fields);
      if length > MAX_LENGTH {
        status := BodyError;
        return false;
      }
      var n: int := if IsConnectionClose(fields) && length == 0 then |buf|
                    else if |buf| + |body| <= length then |buf|
                    else length - |body|;
      if n < 0 || n > MAX_LENGTH {
        status := BodyError;
        return false;
      }
      body := body + buf[..n];
      Consume(n);
      if |body| == length {
        status := End;
        return false;
      }
      return recvbuf.length_ != 0;
    }

    method OnePass(outside: string) returns (again: bool)
      requires Valid() && !Failed(Abstract())
      modifies this, recvbuf, recvbuf.parray_
      ensures Valid() && recvbuf.parray_ == old(recvbuf.parray_) && recvbuf.length_ <= old(recvbuf.length_)
      ensures recvbuf.Behind() == old(recvbuf.parray_[..])[recvbuf.length_..]
      ensures IntPass(old(Abstract()), old(recvbuf.Behind()) + outside)
              == if again then Again(Abstract()) else Return(Abstract())
    {
      hide IntFirstLine, IntFields, IntChunk, ReadBody, IsChunked;
      match status {
        case Start => again := FirstLinePass();
        case FirstLine => again := FirstLinePass();
        case HeaderFields => again := FieldsPass();
        case Body =>
          if IsChunked(fields) {
            again := ChunkPass(outside);
          } else {
            again := BodyPass();
          }
        case _ => again := false;
      }
    }

    /** Round and round until a pass returns. `outside` is what stands in memory behind the block. */
    method Loop(outside: string)
      requires Valid() && !Failed(Abstract())
      modifies this, recvbuf, recvbuf.parray_
      ensures Valid() && recvbuf.parray_ == old(recvbuf.parray_)
      ensures Held(Abstract(), recvbuf.Behind() + outside)
              == IntDrive(old(Abstract()), old(recvbuf.Behind()) + outside)
    {
      hide IntPass, IntDrive, Shifted;
      ghost var goal := IntDrive(Abstract(), recvbuf.Behind() + outside);
      var again := true;
      while again
        invariant Valid() && recvbuf.parray_ == old(recvbuf.parray_)
        invariant if again then !Failed(Abstract()) && IntDrive(Abstract(), recvbuf.Behind() + outside) == goal
                  else Held(Abstract(), recvbuf.Behind() + outside) == goal
        decreases again, Rank(status), recvbuf.length_
      {
        ghost var st, block, behind := Abstract(), recvbuf.parray_[..], recvbuf.Behind() + outside;
        again := OnePass(outside);
        MovedIsShifted(block, st, Abstract(), outside);
        IntDriveStep(st, behind);
        if again {
          IntPassProgresses(st, behind);
        }
      }
    }

    /**
     One call: write the bytes behind the buffered ones, then go round.
     `outside` is what stands in memory behind the block once it is large
     enough.
     */
    method Recv(data: string, outside: string)
      requires Valid() && !Failed(Abstract())
      modifies this, recvbuf, recvbuf.parray_
      ensures Valid() && (recvbuf.parray_ == old(recvbuf.parray_) || fresh(recvbuf.parray_))
      ensures var n := old(recvbuf.length_) + |data|;
              var behind := recvbuf.Grown(old(recvbuf.parray_[..]), n)[n..] + outside;
              IntRecv(old(Abstract()), data, behind) == Held(Abstract(), recvbuf.Behind() + outside)
    {
      hide IntDrive, IsConnectionClose;
      if data == "" {
        if IsConnectionClose(fields) && status == Body {
          status := End;
        }
        return;
      }
      ghost var st, n := Abstract(), recvbuf.length_ + |data|;
      ghost var grown := recvbuf.Grown(recvbuf.parray_[..], n);
      recvbuf.Write(data);
      assert Abstract() == With(st, data);
      assert recvbuf.Behind() == grown[n..];
      Loop(outside);
    }
  }

  lemma SplitMemory(block: string, n: nat, begin: nat, outside: string)
    requires begin <= n <= |block|
    ensures (block + outside)[begin..] == block[..n][begin..] + (block[n..] + outside)
  {
  }

  lemma MovedIsShifted(block: string, st: State, next: State, outside: string)
    requires |next.buf| <= |st.buf| <= |block| && st.buf == block[..|st.buf|]
    ensures block[|next.buf|..] + outside == Shifted(st, next, block[|st.buf|..] + outside)
  {
  }

  // ----- the builder -----

  lemma NoFieldsNoText(h: Fields)
    ensures FieldsToString(h) == "" <==> h == []
  {
  }

  /** `IStreamBodyProvider::AppendHeader`. */
  method AppendHeader(out: AutoBuffer<char>, length: nat)
    requires out.Valid()
    modifies out, out.parray_
    ensures out.Valid() && (out.parray_ == old(out.parray_) || fresh(out.parray_))
    ensures var head := Numeral(length % 0x1_0000_0000, 16) + CRLF;
            out.Contents() == Spliced(old(out.Contents()), old(out.pos_), head) && out.pos_ == old(out.pos_) + |head|
  {
    out.Write(Numeral(length % 0x1_0000_0000, 16) + CRLF);
  }

  /** `IStreamBodyProvider::AppendTail`. */
  method AppendTail(out: AutoBuffer<char>)
    requires out.Valid()
    modifies out, out.parray_
    ensures out.Valid() && (out.parray_ == old(out.parray_) || fresh(out.parray_))
    ensures out.Contents() == Spliced(old(out.Contents()), old(out.pos_), CRLF) && out.pos_ == old(out.pos_) + 2
  {
    out.Write(CRLF);
  }

  lemma FrameText(c: string)
    ensures Numeral(|c| % 0x1_0000_0000, 16) + CRLF + c + CRLF == Frame(BuiltChunk(c))
  {
    hide Numeral;
    var num := Numeral(|c| % 0x1_0000_0000, 16);
    Reassociate(num + CRLF, c, CRLF);
    Reassociate(num, CRLF, c + CRLF);
  }

  /** A provider's chunk between its header and tail is one frame. */
  method AppendChunk(out: AutoBuffer<char>, c: string)
    requires out.Valid()
    modifies out, out.parray_
    ensures out.Valid() && (out.parray_ == old(out.parray_) || fresh(out.parray_))
    ensures out.Contents() == Spliced(old(out.Contents()), old(out.pos_), Frame(BuiltChunk(c)))
    ensures out.pos_ == old(out.pos_) + |Frame(BuiltChunk(c))|
  {
    hide Spliced, Numeral, Frame;
    ghost var s, p := out.Contents(), out.pos_;
    ghost var head := Numeral(|c| % 0x1_0000_0000, 16) + CRLF;
    AppendHeader(out, |c|);
    out.Write(c);
    AppendTail(out);
    SplicedTwice(s, p, head, c);
    SplicedTwice(s, p, head + c, CRLF);
    FrameText(c);
  }

  class Builder {
    const mode: Mode
    var request: RequestLine
    var status: StatusLine
    var fields: Fields
    var content: Content

    function Abstract(): Head
      reads this
    {
      Head(mode, request, status, fields)
    }

    constructor (mode: Mode, request: RequestLine, status: StatusLine)
      ensures Abstract() == Head(mode, request, status, []) && content == NoContent
    {
      this.mode, this.request, this.status, fields, content := mode, request, status, [], NoContent;
    }

    method HeaderToBuffer(out: AutoBuffer<char>) returns (ok: bool)
      requires Known(Abstract()) && out.Valid()
      modifies out, out.parray_
      ensures out.Valid() && (out.parray_ == old(out.parray_) || fresh(out.parray_))
      ensures ok == (fields != [])
      ensures var text := if ok then FirstText(Abstract()) + FieldsToString(fields) + CRLF else "";
              out.Contents() == Spliced(old(out.Contents()), old(out.pos_), text) && out.pos_ == old(out.pos_) + |text|
    {
      hide FirstText, FieldsToString, Spliced;
      ghost var s, p := out.Contents(), out.pos_;
      var first, headers := FirstText(Abstract()), FieldsToString(fields);
      NoFieldsNoText(fields);
      if headers == "" {
        SplicedNothing(s, p);
        return false;
      }
      out.Write(first);
      out.Write(headers);
      out.Write(CRLF);
      SplicedTwice(s, p, first, headers);
      SplicedTwice(s, p, first + headers, CRLF);
      return true;
    }

    method HttpToBuffer(out: AutoBuffer<char>) returns (ok: bool)
      requires Known(Abstract()) && out.Valid()
      modifies `fields, out, out.parray_
      ensures out.Valid() && (out.parray_ == old(out.parray_) || fresh(out.parray_))
      ensures Abstract() == Completed(old(Abstract()), content)
      ensures ok == Output(old(Abstract()), content).Some?
      ensures out.Contents() == Spliced(old(out.Contents()), old(out.pos_),
                                        if ok then Output(old(Abstract()), content).value else "")
    {
      hide FirstText, FieldsToString, Spliced;
      ghost var s, p := out.Contents(), out.pos_;
      match content {
        case NoContent =>
          ok := HeaderToBuffer(out);
          JoinMessage(FirstText(Abstract()), FieldsToString(fields), "");
        case Block(data) =>
          if data == "" {
            SplicedNothing(s, p);
            return true;
          }
          fields := Put(fields, "Content-Length", Numeral(CastLength(|data|), 10));
          PutNonempty(old(fields), "Content-Length", Numeral(CastLength(|data|), 10));
          ok := HeaderToBuffer(out);
          out.Write(data);
          SplicedTwice(s, p, FirstText(Abstract()) + FieldsToString(fields) + CRLF, data);
          JoinMessage(FirstText(Abstract()), FieldsToString(fields), data);
        case Stream(data) =>
          fields := Put(fields, "Transfer-Encoding", "chunked");
          PutNonempty(old(fields), "Transfer-Encoding", "chunked");
          ok := HeaderToBuffer(out);
          out.Write(data);
          SplicedTwice(s, p, FirstText(Abstract()) + FieldsToString(fields) + CRLF, data);
          JoinMessage(FirstText(Abstract()), FieldsToString(fields), data);
      }
    }
  }

  lemma PutNonempty(h: Fields, name: string, value: string)
    ensures Put(h, name, value) != []
  {
  }

  lemma JoinMessage(first: string, text: string, body: string)
    ensures first + text + CRLF + body == first + (text + (CRLF + body))
    ensures body == "" ==> first + text + CRLF == first + (text + (CRLF + body))
  {
  }
}
