/** Round trips of the lines of an HTTP header (`native/mars/comm/http.cc`). */
module HttpLines {

  import opened Options
  import opened Sequences
  import opened Strings
  import opened HttpText
  import opened Http

  // ----- lines -----

  /** No CRLF anywhere. */
  ghost predicate Unbroken(s: string) { forall j :: 0 <= j < |s| ==> !At(s, CRLF, j) }

  /** Text that may stand in a line of the stream. */
  ghost predicate InLine(s: string) { NUL !in s && Unbroken(s) }

  lemma UnbrokenConcat(a: string, b: string)
    requires Unbroken(a) && Unbroken(b) && (a == "" || b == "" || a[|a| - 1] != CR || b[0] != LF)
    ensures Unbroken(a + b)
  {
    var s := a + b;
    forall j | 0 <= j < |s|
      ensures !At(s, CRLF, j)
    {
      if j + 2 <= |a| {
        AtPrefix(a, b, CRLF, j);
      } else if j < |a| {
        assert j + 2 <= |s| ==> s[j..j + 2][0] == a[|a| - 1] && s[j..j + 2][1] == b[0];
        assert CRLF[0] == CR && CRLF[1] == LF;
      } else {
        assert j + 2 <= |s| ==> s[j..j + 2] == b[j - |a|..j - |a| + 2];
        assert !At(b, CRLF, j - |a|);
      }
    }
  }

  lemma FirstCrlf(line: string, rest: string)
    requires Unbroken(line)
    ensures var s := line + (CRLF + rest);
            At(s, CRLF, |line|) && forall j :: 0 <= j < |line| ==> !At(s, CRLF, j)
  {
    var s := line + (CRLF + rest);
    forall j | 0 <= j < |line|
      ensures !At(s, CRLF, j)
    {
      if j + 2 <= |line| {
        AtPrefix(line, CRLF + rest, CRLF, j);
      }
      assert !At(line, CRLF, j);
      assert s[j + 1] == if j + 1 < |line| then line[j + 1] else CR;
    }
  }

  /** An unbroken line is found up to its CRLF. */
  lemma LineEnd(line: string, rest: string)
    requires Unbroken(line)
    ensures FindTag(line + (CRLF + rest), CRLF, 0) == |line|
    ensures NUL !in line ==> StrnStr(line + (CRLF + rest), CRLF) == Some(|line|)
  {
    hide At, StrnStr, FindTag;
    var s := line + (CRLF + rest);
    FirstCrlf(line, rest);
    FindTagIsFirst(s, CRLF, 0);
    assert s[..|line| + 2] == line + CRLF;
    StrnStrIsFirst(s, CRLF, |line|);
  }

  /** If no CRLF is found before the end of line, there is none in it. */
  lemma FoundAtEnd(line: string)
    requires FindTag(line + CRLF, CRLF, 0) == |line|
    ensures Unbroken(line)
  {
    FindTagIsFirst(line + CRLF, CRLF, 0);
    forall j | 0 <= j < |line|
      ensures !At(line, CRLF, j)
    {
      if j + 2 <= |line| {
        AtPrefix(line, CRLF, CRLF, j);
      }
    }
  }

  // ----- first lines -----

  lemma LookupFinds(table: seq<string>, i: nat, k: nat, default: nat)
    requires i <= k < |table| && forall j :: i <= j < k ==> table[j] != table[k]
    ensures Lookup(table, table[k], i, default) == k
    decreases k - i
  {
    if i < k {
      LookupFinds(table, i + 1, k, default);
    }
  }

  /** Printable ASCII without spaces. */
  predicate Word(s: string) { s != "" && forall j :: 0 <= j < |s| ==> '!' <= s[j] <= '~' }

  lemma WordIsToken(s: string)
    requires Word(s)
    ensures IsToken(s, ' ') && InLine(s) && s[0] != LF
  {
    forall j | 0 <= j < |s|
      ensures !At(s, CRLF, j)
    {
      assert j + 2 <= |s| ==> s[j..j + 2][0] != CRLF[0];
    }
  }

  lemma MethodsAreWords(k: nat)
    requires k < |METHODS|
    ensures Word(METHODS[k]) && (METHODS[k][0] != 'H' || METHODS[k] == "HEAD")
  {
  }

  lemma MethodsAreDistinct(k: nat)
    requires k < |METHODS|
    ensures Lookup(METHODS, METHODS[k], 0, UNKNOWN_METHOD) == k
  {
    hide Lookup;
    assert forall i, j :: 0 <= i < j < |METHODS| ==> METHODS[i] != METHODS[j];
    LookupFinds(METHODS, 0, k, UNKNOWN_METHOD);
  }

  lemma VersionsAreWords(k: nat)
    requires k < |VERSIONS|
    ensures Word(VERSIONS[k]) && (k != UNKNOWN_VERSION ==> "HTTP/" <= VERSIONS[k])
  {
  }

  lemma VersionsAreDistinct(k: nat)
    requires k < |VERSIONS|
    ensures Lookup(VERSIONS, VERSIONS[k], 0, UNKNOWN_VERSION) == k
  {
    hide Lookup;
    assert forall i, j :: 0 <= i < j < |VERSIONS| ==> VERSIONS[i] != VERSIONS[j];
    LookupFinds(VERSIONS, 0, k, UNKNOWN_VERSION);
  }

  function RequestText(r: RequestLine): string
    requires r.verb < |METHODS| && r.version < |VERSIONS|
  {
    METHODS[r.verb] + (" " + (r.url + (" " + VERSIONS[r.version])))
  }

  lemma RequestTextEnds(r: RequestLine)
    requires r.verb < |METHODS| && r.version < |VERSIONS|
    ensures RequestToString(r) == RequestText(r) + CRLF
  {
    assert VERSIONS[r.version] + CRLF == VERSIONS[r.version] + CRLF;
    var v := VERSIONS[r.version];
    assert (r.url + (" " + v)) + CRLF == r.url + (" " + (v + CRLF));
  }

  lemma TokensOfLine(line: string)
    requires Unbroken(line)
    ensures LineTokens(line + CRLF) == Some(Tokens(line, ' '))
  {
    hide Tokens, FindTag;
    LineEnd(line, "");
    assert CRLF + "" == CRLF;
    assert (line + CRLF)[..|line|] == line;
  }

  lemma WordsInLine(a: string, b: string)
    requires Word(a) && Unbroken(b)
    ensures Unbroken(a + (" " + b))
  {
    WordIsToken(a);
    UnbrokenConcat(" ", b);
    UnbrokenConcat(a, " " + b);
  }

  /** Splitting a line at its first space. */
  lemma WordThenTokens(a: string, b: string)
    requires Word(a)
    ensures Tokens(a + (" " + b), ' ') == [a] + Tokens(b, ' ')
  {
    WordIsToken(a);
    FirstToken(a, " " + b, ' ');
    assert (" " + b)[1..] == b;
  }

  lemma {:induction false} TokenLengths(s: string)
    ensures forall t :: t in Tokens(s, ' ') ==> |t| <= |s|
    ensures |Tokens(s, ' ')| >= 2 ==> |Tokens(s, ' ')[0]| + |Tokens(s, ' ')[1]| < |s|
    decreases |s|
  {
    if s == "" {
    } else if s[0] == ' ' {
      TokenLengths(s[1..]);
    } else {
      var j := IndexOf(s, 0, ' ');
      TokenLengths(s[j..]);
      TokenLengths(if j < |s| then s[j + 1..] else "");
      assert j < |s| ==> s[j..][1..] == s[j + 1..];
      var ts := Tokens(s[j..], ' ');
      assert Tokens(s, ' ') == [s[..j]] + ts;
      assert ts != [] ==> ts[0] in ts;
    }
  }

  lemma NoCrlfInPrefix(p: string, rest: string, j: nat)
    requires j < |p| && forall i :: 0 <= i < |p| ==> p[i] != CR
    ensures !At(p + rest, CRLF, j)
  {
    var s := p + rest;
    assert j + 2 <= |s| ==> s[j..j + 2][0] == p[j];
  }

  lemma AtShift(p: string, t: string, pat: string, j: nat)
    ensures At(p + t, pat, |p| + j) <==> At(t, pat, j)
  {
    assert j + |pat| <= |t| ==> (p + t)[|p| + j..|p| + j + |pat|] == t[j..j + |pat|];
  }

  lemma FirstIsFound(s: string, pat: string, i: nat)
    requires pat != "" && At(s, pat, i) && forall j :: 0 <= j < i ==> !At(s, pat, j)
    ensures FindTag(s, pat, 0) == i
  {
    FindTagIsFirst(s, pat, 0);
  }

  lemma FoundIsFirst(s: string, pat: string, k: nat)
    requires pat != "" && At(s, pat, k)
    ensures var i := FindTag(s, pat, 0);
            i <= k && At(s, pat, i) && forall j :: 0 <= j < i ==> !At(s, pat, j)
  {
    FindTagIsFirst(s, pat, 0);
  }

  /** A search that cannot succeed within p goes on in t. */
  lemma FoundAfter(p: string, t: string, pat: string, k: nat)
    requires pat != "" && At(t, pat, k) && forall j :: 0 <= j < |p| ==> !At(p + t, pat, j)
    ensures FindTag(t, pat, 0) <= k && FindTag(p + t, pat, 0) == |p| + FindTag(t, pat, 0)
  {
    hide At, FindTag;
    FoundIsFirst(t, pat, k);
    var q := FindTag(t, pat, 0);
    AtShift(p, t, pat, q);
    forall j | 0 <= j < |p| + q
      ensures !At(p + t, pat, j)
    {
      if j >= |p| {
        AtShift(p, t, pat, j - |p|);
      }
    }
    FirstIsFound(p + t, pat, |p| + q);
  }

  predicate NoCr(p: string) { forall i :: 0 <= i < |p| ==> p[i] != CR }

  lemma NoCrlfBefore(p: string, t: string)
    requires NoCr(p)
    ensures forall j :: 0 <= j < |p| ==> !At(p + t, CRLF, j)
  {
    hide At;
    forall j | 0 <= j < |p|
      ensures !At(p + t, CRLF, j)
    {
      NoCrlfInPrefix(p, t, j);
    }
  }

  /** The first CRLF of a line that starts without one. */
  lemma CrlfAfter(p: string, b: string)
    requires NoCr(p)
    ensures FindTag(b + CRLF, CRLF, 0) <= |b|
    ensures FindTag(p + (b + CRLF), CRLF, 0) == |p| + FindTag(b + CRLF, CRLF, 0)
  {
    hide At, FindTag, NoCr;
    EndsWithCrlf(b);
    NoCrlfBefore(p, b + CRLF);
    FoundAfter(p, b + CRLF, CRLF, |b|);
  }

  lemma EndsWithCrlf(b: string)
    ensures At(b + CRLF, CRLF, |b|)
  {
  }

  lemma {:induction false} LookupSound(table: seq<string>, s: string, i: nat, default: nat)
    requires i <= |table|
    ensures var k := Lookup(table, s, i, default); k == default || (k < |table| && table[k] == s)
    decreases |table| - i
  {
    if i < |table| {
      LookupSound(table, s, i + 1, default);
    }
  }

  /** What a request line must be to survive. */
  ghost predicate GoodRequest(r: RequestLine) {
    0 < r.verb < |METHODS| && r.version < UNKNOWN_VERSION && IsToken(r.url, ' ') && Unbroken(r.url)
  }

  lemma RequestTokens(r: RequestLine)
    requires GoodRequest(r)
    ensures LineTokens(RequestToString(r)) == Some([METHODS[r.verb], r.url, VERSIONS[r.version]])
    ensures Unbroken(RequestText(r))
  {
    hide Tokens, Unbroken, LineTokens, IsToken;
    var m, u, v := METHODS[r.verb], r.url, VERSIONS[r.version];
    hide METHODS, VERSIONS;
    MethodsAreWords(r.verb);
    VersionsAreWords(r.version);
    WordIsToken(v);
    RequestTextEnds(r);
    LastWord(u, v);
    WordsInLine(m, u + (" " + v));
    TokensOfLine(RequestText(r));
    WordThenTokens(m, u + (" " + v));
    assert [m] + [u, v] == [m, u, v];
  }

  lemma LastWord(u: string, v: string)
    requires IsToken(u, ' ') && Unbroken(u) && Word(v)
    ensures Unbroken(u + (" " + v))
    ensures Tokens(u + (" " + v), ' ') == [u, v]
  {
    WordIsToken(v);
    WordsInLine(v, "");
    assert Unbroken(" " + v) by {
      UnbrokenConcat(" ", v);
    }
    UnbrokenConcat(u, " " + v);
    FirstToken(u, " " + v, ' ');
    assert (" " + v)[1..] == v;
    FirstToken(v, "", ' ');
    assert v + "" == v;
  }

  /** A request line survives exactly if its parts are known and its URL is one unbroken word. */
  lemma RequestRoundTrip(r: RequestLine)
    requires r.verb < |METHODS| && r.version < |VERSIONS|
    ensures RequestFromString(RequestToString(r)) == Some(r) <==> GoodRequest(r)
  {
    hide Tokens, Unbroken, LineTokens, IsToken, Lookup;
    if GoodRequest(r) {
      RequestTokens(r);
      MethodsAreDistinct(r.verb);
      VersionsAreDistinct(r.version);
    } else if RequestFromString(RequestToString(r)) == Some(r) {
      var ts := LineTokens(RequestToString(r)).value;
      LookupSound(METHODS, ts[0], 0, UNKNOWN_METHOD);
      LookupSound(VERSIONS, ts[2], 0, UNKNOWN_VERSION);
      RequestSurvived(r, ts);
    }
  }

  lemma RequestSurvived(r: RequestLine, ts: seq<string>)
    requires 0 < r.verb < |METHODS| && r.version < UNKNOWN_VERSION
    requires LineTokens(RequestToString(r)) == Some(ts) && |ts| >= 3
    requires ts[0] == METHODS[r.verb] && ts[1] == r.url && ts[2] == VERSIONS[r.version]
    ensures IsToken(r.url, ' ') && Unbroken(r.url)
  {
    MethodsAreWords(r.verb);
    RequestTextEnds(r);
    hide Tokens, FindTag, METHODS, VERSIONS, Word, LineTokens, RequestToString, Unbroken, IsToken;
    LastWordsSurvived(METHODS[r.verb], r.url, VERSIONS[r.version], ts);
  }

  lemma LastWordsSurvived(m: string, u: string, v: string, ts: seq<string>)
    requires Word(m) && LineTokens(m + (" " + (u + (" " + v))) + CRLF) == Some(ts)
    requires |ts| >= 3 && ts[1] == u && ts[2] == v
    ensures IsToken(u, ' ') && Unbroken(u)
  {
    hide Tokens, FindTag, Word, LineTokens, Unbroken, IsToken;
    var b := u + (" " + v);
    var q := CutLine(m, b);
    var rest := Tokens(b[..q], ' ');
    assert ts == [m] + rest && rest[0] == u && rest[1] == v;
    TokensAreTokens(b[..q], ' ');
    TokenLengths(b[..q]);
    assert u in rest;
    UnbrokenHead(u, " " + v);
  }

  /** The tokens of a line that starts with a word; q characters of the rest belong to it. */
  lemma CutLine(a: string, b: string) returns (q: nat)
    requires Word(a)
    ensures q == FindTag(b + CRLF, CRLF, 0) <= |b|
    ensures LineTokens(a + (" " + b) + CRLF) == Some([a] + Tokens(b[..q], ' '))
    ensures q == |b| ==> Unbroken(b)
  {
    hide Tokens, FindTag, Unbroken;
    q := FindTag(b + CRLF, CRLF, 0);
    var p := a + " ";
    CrlfAfter(p, b);
    if q == |b| {
      FoundAtEnd(b);
    }
    WordThenTokens(a, b[..q]);
    LineSplits(a, b, q);
  }

  lemma LineSplits(a: string, b: string, q: nat)
    requires q <= |b|
    ensures var line := a + (" " + b) + CRLF;
            line == (a + " ") + (b + CRLF) && line[..|a + " "| + q] == a + (" " + b[..q])
  {
  }

  lemma UnbrokenHead(a: string, b: string)
    requires Unbroken(a + b)
    ensures Unbroken(a)
  {
    forall j | 0 <= j < |a|
      ensures !At(a, CRLF, j)
    {
      if j + 2 <= |a| {
        AtPrefix(a, b, CRLF, j);
      }
    }
  }

  // ----- status lines -----

  lemma {:induction false} NumeralIsWord(n: nat, base: nat)
    requires 2 <= base <= 16
    ensures Word(Numeral(n, base))
    decreases n
  {
    if n >= base {
      QuotientSmaller(n, base);
      NumeralIsWord(n / base, base);
    }
  }

  lemma DecimalIsWord(n: int)
    ensures Word(Decimal(n))
  {
    NumeralIsWord(if n < 0 then -n else n, 10);
  }

  /** A line of two words and a rest. */
  lemma TwoWords(a: string, d: string, c: string) returns (q: nat)
    requires Word(a) && Word(d)
    ensures q <= |c| && LineTokens(a + (" " + (d + (" " + c))) + CRLF) == Some([a, d] + Tokens(c[..q], ' '))
    ensures q == |c| <==> Unbroken(c)
  {
    hide Tokens, FindTag, Unbroken, LineTokens;
    q := FindTag(c + CRLF, CRLF, 0);
    var b := d + (" " + c);
    var k := CutLine(a, b);
    CrlfAfter(d + " ", c);
    RestSplits(d, c, q);
    WordThenTokens(d, c[..q]);
    assert [a] + ([d] + Tokens(c[..q], ' ')) == [a, d] + Tokens(c[..q], ' ');
    LineSplits(d, c, q);
    if q == |c| {
      FoundAtEnd(c);
    }
    if Unbroken(c) {
      LineEnd(c, "");
      assert CRLF + "" == CRLF;
    }
  }

  lemma RestSplits(d: string, c: string, q: nat)
    requires q <= |c|
    ensures (d + (" " + c))[..|d + " "| + q] == d + (" " + c[..q])
    ensures d + (" " + c) + CRLF == (d + " ") + (c + CRLF)
  {
  }

  /** What a status line must be to survive: at most one word of reason. */
  ghost predicate GoodStatus(s: StatusLine) {
    s.version < UNKNOWN_VERSION && (s.reason == "" || (IsToken(s.reason, ' ') && Unbroken(s.reason)))
  }

  /** A status line read into a fresh parser. */
  lemma StatusRoundTrip(s: StatusLine, was: StatusLine)
    requires s.version < |VERSIONS| && -0x8000_0000 <= s.code < 0x8000_0000 && was.reason == ""
    ensures StatusFromString(StatusToString(s), was) == Some(s) <==> GoodStatus(s)
  {
    hide Tokens, Unbroken, LineTokens, IsToken, Lookup, Strtol;
    VersionsAreWords(s.version);
    VersionsAreDistinct(s.version);
    StrtolRoundTrip(s.code);
    DecimalIsWord(s.code);
    var q := TwoWords(VERSIONS[s.version], Decimal(s.code), s.reason);
    StatusTextEnds(s);
    ReasonTokens(s.reason, q);
  }

  lemma StatusTextEnds(s: StatusLine)
    requires s.version < |VERSIONS|
    ensures StatusToString(s) == VERSIONS[s.version] + (" " + (Decimal(s.code) + (" " + s.reason))) + CRLF
  {
    hide VERSIONS, Decimal;
    var version, code := VERSIONS[s.version], Decimal(s.code);
    Reassociate(" ", s.reason, CRLF);
    Reassociate(code, " " + s.reason, CRLF);
    Reassociate(" ", code + (" " + s.reason), CRLF);
    Reassociate(version, " " + (code + (" " + s.reason)), CRLF);
  }

  lemma ReasonTokens(c: string, q: nat)
    requires q <= |c|
    ensures var ts := Tokens(c[..q], ' ');
            |ts| == 1 && ts[0] == c <==> c != "" && IsToken(c, ' ') && q == |c|
    ensures c == "" ==> Tokens(c[..q], ' ') == []
  {
    var ts := Tokens(c[..q], ' ');
    if |ts| == 1 && ts[0] == c {
      TokensAreTokens(c[..q], ' ');
      TokenLengths(c[..q]);
      assert ts[0] in ts;
    }
    if IsToken(c, ' ') && q == |c| {
      assert c[..q] == c && c + "" == c;
      FirstToken(c, "", ' ');
    }
  }

  // ----- any first line -----

  /** A known word is looked up as its place in the table. */
  lemma {:induction false} LookupDecides(table: seq<string>, s: string, i: nat, default: nat)
    requires i <= |table|
    ensures var k := Lookup(table, s, i, default);
            if s in table[i..] then i <= k < |table| && table[k] == s else k == default
    decreases |table| - i
  {
    if i < |table| {
      LookupDecides(table, s, i + 1, default);
      assert table[i..] == [table[i]] + table[i + 1..];
    }
  }

  /** A request line is taken exactly if it has three words, a known method first and a known version third. */
  lemma RequestDecided(line: string)
    requires InLine(line)
    ensures var ts, r := Tokens(line, ' '), RequestFromString(line + CRLF);
            && (r.Some? <==> |ts| >= 3 && ts[0] in METHODS && ts[0] != "UNKNOWN" && ts[2] in VERSIONS
                             && ts[2] != "version_unknown")
            && (r.Some? ==> && r.value.verb < |METHODS| && METHODS[r.value.verb] == ts[0] && r.value.url == ts[1]
                            && r.value.version < |VERSIONS| && VERSIONS[r.value.version] == ts[2])
  {
    hide Tokens, Lookup, METHODS, VERSIONS;
    TokensOfLine(line);
    var ts := Tokens(line, ' ');
    if |ts| >= 3 {
      LookupDecides(METHODS, ts[0], 0, UNKNOWN_METHOD);
      LookupDecides(VERSIONS, ts[2], 0, UNKNOWN_VERSION);
      assert METHODS[0..] == METHODS && VERSIONS[0..] == VERSIONS;
      UnknownWords();
    }
  }

  lemma UnknownWords()
    ensures |METHODS| == 9 && forall k :: 0 <= k < 9 ==> (METHODS[k] == "UNKNOWN" <==> k == 0)
    ensures |VERSIONS| == 5 && forall k :: 0 <= k < 5 ==> (VERSIONS[k] == "version_unknown" <==> k == 4)
  {
    forall k | 0 <= k < 9
      ensures METHODS[k] == "UNKNOWN" <==> k == 0
    {
      assert k > 0 ==> METHODS[k][0] != 'U';
    }
    forall k | 0 <= k < 5
      ensures VERSIONS[k] == "version_unknown" <==> k == 4
    {
      assert k < 4 ==> VERSIONS[k][0] == 'H';
    }
  }

  /**
   A status line is taken exactly if it has two words and a known version first;
   its third word is the reason only if it is the last.
   */
  lemma StatusDecided(line: string, was: StatusLine)
    requires InLine(line)
    ensures var ts, r := Tokens(line, ' '), StatusFromString(line + CRLF, was);
            && (r.Some? <==> |ts| >= 2 && ts[0] in VERSIONS && ts[0] != "version_unknown")
            && (r.Some? ==> && r.value.version < |VERSIONS| && VERSIONS[r.value.version] == ts[0]
                            && r.value.code == Strtol(ts[1])
                            && r.value.reason == (if |ts| == 3 then ts[2] else was.reason))
  {
    hide Tokens, Lookup, METHODS, VERSIONS, Strtol;
    TokensOfLine(line);
    var ts := Tokens(line, ' ');
    if |ts| >= 2 {
      LookupDecides(VERSIONS, ts[0], 0, UNKNOWN_VERSION);
      assert VERSIONS[0..] == VERSIONS;
      UnknownWords();
    }
  }

  /** What a refused request line leaves: method and URL, if the method was known and there were three words. */
  lemma RefusedRequest(line: string, was: RequestLine)
    requires InLine(line)
    ensures var ts, r := Tokens(line, ' '), RequestRefused(line + CRLF, was);
            if |ts| >= 3 && ts[0] in METHODS && ts[0] != "UNKNOWN" then
              && 0 < r.verb < |METHODS| && METHODS[r.verb] == ts[0] && r.url == ts[1]
              && r.version < |VERSIONS| && VERSIONS[r.version] == "version_unknown"
            else r == was
  {
    hide Tokens, Lookup, METHODS, VERSIONS;
    TokensOfLine(line);
    var ts := Tokens(line, ' ');
    if |ts| >= 3 {
      LookupDecides(METHODS, ts[0], 0, UNKNOWN_METHOD);
      assert METHODS[0..] == METHODS;
    }
    UnknownWords();
  }

  /** What a refused status line leaves: an unknown version, if there were two words. */
  lemma RefusedStatus(line: string, was: StatusLine)
    requires InLine(line)
    ensures var r := StatusRefused(line + CRLF, was);
            && r.code == was.code && r.reason == was.reason
            && if |Tokens(line, ' ')| < 2 then r == was
               else r.version < |VERSIONS| && VERSIONS[r.version] == "version_unknown"
  {
    hide Tokens, VERSIONS;
    TokensOfLine(line);
    UnknownWords();
  }
}
