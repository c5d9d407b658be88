/** The header map and its text (`HeaderFields` and `__ParserHeaders` of `native/mars/comm/http.cc`). */
module HttpFields {

  import opened Options
  import opened Sequences
  import opened Strings
  import opened HttpText
  import opened Http
  import opened HttpLines

  // ----- names are ordered without regard to case -----

  lemma {:induction false} LessIsAsymmetric(x: string, y: string)
    ensures !(LessNoCase(x, y) && LessNoCase(y, x))
    decreases |x|
  {
    if x != "" && y != "" {
      LessIsAsymmetric(x[1..], y[1..]);
    }
  }

  /** The order is transitive, and names that differ only in case stand at the same place in it. */
  lemma {:induction false} LessIsTransitive(x: string, y: string, z: string)
    ensures LessNoCase(x, y) && !LessNoCase(z, y) ==> LessNoCase(x, z)
    ensures !LessNoCase(y, x) && LessNoCase(y, z) ==> LessNoCase(x, z)
    decreases |x|
  {
    if x != "" && y != "" && z != "" {
      LessIsTransitive(x[1..], y[1..], z[1..]);
    }
  }

  /** The same letter, be it small or a capital, or the same character. */
  predicate SameLetter(c: char, d: char) {
    || c == d
    || ('a' <= c <= 'z' && d as int == c as int - 'a' as int + 'A' as int)
    || ('a' <= d <= 'z' && c as int == d as int - 'a' as int + 'A' as int)
  }

  predicate Alike(x: string, y: string) {
    |x| == |y| && forall i :: 0 <= i < |x| ==> SameLetter(x[i], y[i])
  }

  /** Names are the same exactly if they differ in the case of letters at most. */
  lemma {:induction false} SameNoCaseIsAlike(x: string, y: string)
    ensures SameNoCase(x, y) <==> Alike(x, y)
    decreases |x|
  {
    hide SameLetter;
    if x != "" && y != "" {
      SameNoCaseIsAlike(x[1..], y[1..]);
      SameLetterIsLower(x[0], y[0]);
      if Alike(x, y) {
        assert forall i :: 0 <= i < |x| - 1 ==> x[1..][i] == x[i + 1] && y[1..][i] == y[i + 1];
      }
      if Alike(x[1..], y[1..]) && SameLetter(x[0], y[0]) {
        assert forall i :: 0 < i < |x| ==> x[i] == x[1..][i - 1] && y[i] == y[1..][i - 1];
      }
    }
  }

  lemma SameLetterIsLower(c: char, d: char)
    ensures SameLetter(c, d) <==> LowerChar(c) == LowerChar(d)
  {
  }

  /** The map's invariant: names ascend, so no two differ only in case. */
  ghost predicate Sorted(h: Fields) {
    forall i, j :: 0 <= i < j < |h| ==> LessNoCase(h[i].0, h[j].0)
  }

  lemma {:induction false} PutNames(h: Fields, name: string, value: string)
    ensures forall f :: f in Put(h, name, value) ==> f.0 == name || exists g :: g in h && g.0 == f.0
  {
    if h != [] && !LessNoCase(name, h[0].0) && !SameNoCase(name, h[0].0) {
      PutNames(h[1..], name, value);
      forall f | f in Put(h, name, value)
        ensures f.0 == name || exists g :: g in h && g.0 == f.0
      {
        assert f == h[0] || f in Put(h[1..], name, value);
      }
    } else if h != [] && SameNoCase(name, h[0].0) {
      assert h[0] in h;
      assert forall f :: f in h[1..] ==> f in h;
    }
  }

  /** Setting a field keeps the map sorted. */
  lemma {:induction false} PutKeepsSorted(h: Fields, name: string, value: string)
    requires Sorted(h)
    ensures Sorted(Put(h, name, value))
  {
    if h == [] {
    } else if LessNoCase(name, h[0].0) {
      forall j | 0 <= j < |h|
        ensures LessNoCase(name, h[j].0)
      {
        LessIsTransitive(name, h[0].0, h[j].0);
        LessIsAsymmetric(h[0].0, h[j].0);
      }
    } else if !SameNoCase(name, h[0].0) {
      var rest := Put(h[1..], name, value);
      PutKeepsSorted(h[1..], name, value);
      PutNames(h[1..], name, value);
      forall j | 0 <= j < |rest|
        ensures LessNoCase(h[0].0, rest[j].0)
      {
        assert rest[j] in rest;
      }
    }
  }

  /** Reading back a field, and every other. */
  lemma {:induction false} GetAfterPut(h: Fields, name: string, value: string, other: string)
    ensures Get(Put(h, name, value), name) == Some(value)
    ensures !SameNoCase(name, other) ==> Get(Put(h, name, value), other) == Get(h, other)
  {
    LessIsAsymmetric(name, name);
    if h != [] && !LessNoCase(name, h[0].0) && !SameNoCase(name, h[0].0) {
      GetAfterPut(h[1..], name, value, other);
    } else if h != [] {
      LessIsTransitive(name, other, h[0].0);
      LessIsTransitive(other, name, h[0].0);
    }
  }

  /** A field is found under every spelling of its name. */
  lemma {:induction false} GetAlike(h: Fields, i: nat, name: string)
    requires Sorted(h) && i < |h| && Alike(h[i].0, name)
    ensures Get(h, name) == Some(h[i].1)
    decreases i
  {
    SameNoCaseIsAlike(h[i].0, name);
    if i > 0 {
      LessIsTransitive(h[0].0, h[i].0, name);
      GetAlike(h[1..], i - 1, name);
    }
  }

  lemma {:induction false} GetIsAlike(h: Fields, name: string)
    ensures Get(h, name).Some? ==> exists i :: 0 <= i < |h| && Alike(h[i].0, name) && Get(h, name) == Some(h[i].1)
  {
    if h != [] {
      SameNoCaseIsAlike(h[0].0, name);
      if SameNoCase(h[0].0, name) {
        assert Alike(h[0].0, name);
      } else {
        GetIsAlike(h[1..], name);
        if Get(h, name).Some? {
          var i :| 0 <= i < |h[1..]| && Alike(h[1..][i].0, name) && Get(h, name) == Some(h[1..][i].1);
          assert h[i + 1] == h[1..][i];
        }
      }
    }
  }

  /** The body is announced as chunks, in whatever spelling. */
  ghost predicate SaysChunked(h: Fields) {
    exists i :: 0 <= i < |h| && Alike(h[i].0, "Transfer-Encoding") && Alike(h[i].1, "chunked")
  }

  ghost predicate SaysClose(h: Fields) {
    exists i :: 0 <= i < |h| && Alike(h[i].0, "Connection") && Alike(h[i].1, "close")
  }

  lemma SaidInAnyCase(h: Fields)
    requires Sorted(h)
    ensures IsChunked(h) <==> SaysChunked(h)
    ensures IsConnectionClose(h) <==> SaysClose(h)
  {
    hide Alike, SameNoCase, Sorted;
    GetIsAlike(h, "Transfer-Encoding");
    GetIsAlike(h, "Connection");
    forall i | 0 <= i < |h|
      ensures Alike(h[i].0, "Transfer-Encoding") ==> Get(h, "Transfer-Encoding") == Some(h[i].1)
      ensures Alike(h[i].0, "Connection") ==> Get(h, "Connection") == Some(h[i].1)
      ensures Alike(h[i].1, "chunked") <==> SameNoCase(h[i].1, "chunked")
      ensures Alike(h[i].1, "close") <==> SameNoCase(h[i].1, "close")
    {
      if Alike(h[i].0, "Transfer-Encoding") { GetAlike(h, i, "Transfer-Encoding"); }
      if Alike(h[i].0, "Connection") { GetAlike(h, i, "Connection"); }
      SameNoCaseIsAlike(h[i].1, "chunked");
      SameNoCaseIsAlike(h[i].1, "close");
    }
  }

  /** The length is what is spelled under the name in any case, in digits with zeros and a gap in front. */
  lemma LengthInAnyCase(h: Fields, i: nat, gap: string, s: string, ds: seq<nat>, rest: string)
    requires Sorted(h) && i < |h| && Alike(h[i].0, "Content-Length")
    requires h[i].1 == gap + (s + rest) && s != "" && Spells(s, ds, 10)
    requires IsGap(gap) && NoMoreDigits(rest, 10) && Positional(ds, 10) <= ULLONG_MAX
    ensures ContentLength(h) == Positional(ds, 10)
  {
    hide Strtoull, Spells, Positional;
    GetAlike(h, i, "Content-Length");
    SpelledNumber(gap, s, ds, 10, rest);
  }

  lemma NoLengthSaid(h: Fields)
    requires forall i :: 0 <= i < |h| ==> !Alike(h[i].0, "Content-Length")
    ensures ContentLength(h) == 0
  {
    hide Alike;
    GetIsAlike(h, "Content-Length");
  }

  lemma SmallerThanAll(h: Fields, name: string)
    requires Sorted(h) && h != [] && LessNoCase(name, h[0].0)
    ensures forall j :: 0 <= j < |h| ==> !Alike(h[j].0, name)
  {
    hide Alike, LessNoCase;
    forall j | 0 <= j < |h|
      ensures !Alike(h[j].0, name)
    {
      SameNoCaseIsAlike(h[j].0, name);
      LessIsTransitive(name, h[0].0, h[j].0);
      LessIsAsymmetric(h[0].0, h[j].0);
    }
  }

  lemma PutStep(h: Fields, name: string, value: string)
    requires h != []
    ensures Put(h, name, value) == if LessNoCase(name, h[0].0) then [(name, value)] + h
                                   else if SameNoCase(name, h[0].0) then [(h[0].0, value)] + h[1..]
                                   else [h[0]] + Put(h[1..], name, value)
  {
  }

  /** The field at i has the name and gets the value, or no field has it and one is added there. */
  ghost predicate IsUpdate(h: Fields, name: string, value: string, i: nat, r: Fields) {
    i <= |h| &&
    if i < |h| && Alike(h[i].0, name) then r == h[i := (h[i].0, value)]
    else r == h[..i] + ([(name, value)] + h[i..]) && forall j :: 0 <= j < |h| ==> !Alike(h[j].0, name)
  }

  lemma UpdateBehind(f: (string, string), h: Fields, name: string, value: string, i: nat, r: Fields)
    requires IsUpdate(h, name, value, i, r) && !Alike(f.0, name)
    ensures IsUpdate([f] + h, name, value, i + 1, [f] + r)
  {
    hide Alike;
    var all := [f] + h;
    assert all[..i + 1] == [f] + h[..i] && all[i + 1..] == h[i..];
    Reassociate([f], h[..i], [(name, value)] + h[i..]);
    assert forall j :: 0 < j < |all| ==> all[j] == h[j - 1];
  }

  /** Setting a field changes the value of the one it names and keeps its spelling, or adds one. */
  lemma {:induction false} PutIsUpdate(h: Fields, name: string, value: string) returns (i: nat)
    requires Sorted(h)
    ensures IsUpdate(h, name, value, i, Put(h, name, value))
    decreases |h|
  {
    hide Alike, Put, LessNoCase, SameNoCase;
    i := 0;
    if h == [] {
      assert Put(h, name, value) == [(name, value)] by { PutIntoNothing(name, value); }
      assert h[..0] + ([(name, value)] + h[0..]) == [(name, value)];
    } else {
      PutStep(h, name, value);
      SameNoCaseIsAlike(name, h[0].0);
      SameNoCaseIsAlike(h[0].0, name);
      SameBothWays(name, h[0].0);
      if LessNoCase(name, h[0].0) {
        SmallerThanAll(h, name);
        assert h[..0] + ([(name, value)] + h[0..]) == [(name, value)] + h;
      } else if SameNoCase(name, h[0].0) {
        assert h[0 := (h[0].0, value)] == [(h[0].0, value)] + h[1..];
      } else {
        i := PutIsUpdate(h[1..], name, value);
        UpdateBehind(h[0], h[1..], name, value, i, Put(h[1..], name, value));
        assert [h[0]] + h[1..] == h;
        i := i + 1;
      }
    }
  }

  lemma PutIntoNothing(name: string, value: string)
    ensures Put([], name, value) == [(name, value)]
  {
  }

  lemma SameBothWays(x: string, y: string)
    ensures SameNoCase(x, y) <==> SameNoCase(y, x)
  {
    hide LessNoCase;
  }

  lemma {:induction false} PutLast(h: Fields, name: string, value: string)
    requires forall f :: f in h ==> LessNoCase(f.0, name)
    ensures Put(h, name, value) == h + [(name, value)]
  {
    if h != [] {
      assert h[0] in h && forall f :: f in h[1..] ==> f in h;
      LessIsAsymmetric(h[0].0, name);
      PutLast(h[1..], name, value);
      assert [h[0]] + (h[1..] + [(name, value)]) == h + [(name, value)];
    }
  }

  // ----- the text of the header -----

  ghost predicate GoodField(f: (string, string)) {
    ':' !in f.0 && InLine(f.0) && InLine(f.1) && Trimmed(f.0) && Trimmed(f.1)
  }

  /** A header map whose text can be read back. */
  ghost predicate GoodFields(h: Fields) {
    Sorted(h) && forall f :: f in h ==> GoodField(f)
  }

  lemma {:induction false} PutKeepsGoodFields(h: Fields, name: string, value: string)
    requires (forall f :: f in h ==> GoodField(f)) && GoodField((name, value))
    ensures forall f :: f in Put(h, name, value) ==> GoodField(f)
  {
    if h != [] {
      assert h[0] in h && forall f :: f in h[1..] ==> f in h;
      PutKeepsGoodFields(h[1..], name, value);
    }
  }

  /** Setting a field that can be read back leaves a header that can. */
  lemma PutKeepsGood(h: Fields, name: string, value: string)
    requires GoodFields(h) && GoodField((name, value))
    ensures GoodFields(Put(h, name, value)) && Put(h, name, value) != []
  {
    PutKeepsSorted(h, name, value);
    PutKeepsGoodFields(h, name, value);
  }

  function FieldLine(f: (string, string)): string { f.0 + (": " + f.1) }

  lemma NoCrIsUnbroken(s: string)
    requires NoCr(s)
    ensures Unbroken(s)
  {
    forall j | 0 <= j < |s|
      ensures !At(s, CRLF, j)
    {
      assert j + 2 <= |s| ==> s[j..j + 2][0] == s[j];
    }
  }

  lemma FieldLineIsLine(f: (string, string))
    requires GoodField(f)
    ensures InLine(FieldLine(f)) && FieldLine(f)[0] != CR && FieldLine(f)[0] != LF
  {
    NoCrIsUnbroken(": ");
    assert f.0 != "" ==> FieldLine(f)[0] == f.0[0];
    UnbrokenConcat(": ", f.1);
    UnbrokenConcat(f.0, ": " + f.1);
  }

  lemma AddFieldLine(h: Fields, f: (string, string))
    requires GoodField(f)
    ensures AddLine(h, FieldLine(f)) == Put(h, f.0, f.1)
  {
    var line := FieldLine(f);
    var n := |f.0|;
    assert line[n] == ':' && line[n + 1] == ' ' && line[n + 1] in line;
    assert line[0..n] == f.0;
    FirstIndex(line, 0, n, ':');
    assert line[..n] == f.0 && line[n + 1..] == " " + f.1;
    TrimOfTrimmed(f.0);
    TrimOfTrimmed(f.1);
  }

  // ----- header lines as people write them -----

  /** A header line with whitespace around name and value. */
  datatype WrittenField = WrittenField(before: string, name: string, afterName: string, beforeValue: string,
                                       value: string, after: string)

  function WrittenLine(f: WrittenField): string {
    f.before + (f.name + (f.afterName + (":" + (f.beforeValue + (f.value + f.after)))))
  }

  ghost predicate WellWrittenField(f: WrittenField) {
    && IsGap(f.before) && IsGap(f.afterName) && IsGap(f.beforeValue) && IsGap(f.after)
    && Trimmed(f.name) && f.name != "" && ':' !in f.name && Trimmed(f.value) && InLine(WrittenLine(f))
  }

  /** A field is set under its name, unless nothing at all follows the colon. */
  lemma WrittenFieldRead(h: Fields, f: WrittenField)
    requires WellWrittenField(f)
    ensures AddLine(h, WrittenLine(f))
            == if f.beforeValue + (f.value + f.after) == "" then h else Put(h, f.name, f.value)
  {
    hide Trim, Put, InLine, AddLine, Trimmed;
    var left, right := f.before + (f.name + f.afterName), f.beforeValue + (f.value + f.after);
    Reassociate(f.name, f.afterName, ":" + right);
    Reassociate(f.before, f.name + f.afterName, ":" + right);
    forall c | c in left
      ensures c != ':'
    {
      assert c in f.before || c in f.name || c in f.afterName;
    }
    assert left[|f.before|] == f.name[0];
    ColonLine(h, left, right);
    TrimGaps(f.before, f.name, f.afterName);
    TrimGaps(f.beforeValue, f.value, f.after);
  }

  lemma ColonLine(h: Fields, left: string, right: string)
    requires left != "" && ':' !in left
    ensures AddLine(h, left + (":" + right)) == if right == "" then h else Put(h, Trim(left), Trim(right))
  {
    hide Trim, Put;
    var line, n := left + (":" + right), |left|;
    assert line[0] == left[0] && left[0] in left && line[0] in line;
    assert line[0..n] == left && line[n] == ':';
    FirstIndex(line, 0, n, ':');
    assert line[..n] == left && line[n + 1..] == right;
  }

  /** A line without a colon is both name and value; one of colons only sets nothing. */
  lemma BareLineRead(h: Fields, before: string, s: string, after: string, colons: string)
    requires IsGap(before) && IsGap(after) && Trimmed(s) && ':' !in s && before + (s + after) != ""
    requires forall c :: c in colons ==> c == ':'
    ensures AddLine(h, before + (s + after)) == Put(h, s, s) && AddLine(h, colons) == h
  {
    hide Trim, Put;
    var line := before + (s + after);
    assert ':' !in line by {
      assert forall c :: c in line ==> c in before || c in s || c in after;
    }
    assert line[0] in line && line[0..] == line;
    NoIndex(line, 0, ':');
    TrimGaps(before, s, after);
  }

  function WrittenFields(fs: seq<WrittenField>): string {
    if fs == [] then "" else WrittenLine(fs[0]) + (CRLF + WrittenFields(fs[1..]))
  }

  /** The fields set one after the other, each under its name in whatever case. */
  function AllPut(h: Fields, fs: seq<WrittenField>): Fields
    decreases |fs|
  {
    if fs == [] then h else
      AllPut(if fs[0].beforeValue + (fs[0].value + fs[0].after) == "" then h else Put(h, fs[0].name, fs[0].value),
             fs[1..])
  }

  /** Header lines are read in order, whatever whitespace is in them. */
  lemma {:induction false} WrittenFieldsRead(h: Fields, fs: seq<WrittenField>)
    requires forall i :: 0 <= i < |fs| ==> WellWrittenField(fs[i])
    ensures ParseFields(WrittenFields(fs) + CRLF, h) == AllPut(h, fs)
    decreases |fs|
  {
    hide ParseFields, AddLine, WrittenLine, Put;
    if fs == [] {
      BlankLineAddsNothing(h);
      assert WrittenFields(fs) + CRLF == FieldsToString([]) + CRLF && h + [] == h;
    } else {
      WrittenFieldRead(h, fs[0]);
      Reassociate(CRLF, WrittenFields(fs[1..]), CRLF);
      Reassociate(WrittenLine(fs[0]), CRLF + WrittenFields(fs[1..]), CRLF);
      LineParsed(WrittenLine(fs[0]), WrittenFields(fs[1..]) + CRLF, h);
      WrittenFieldsRead(AddLine(h, WrittenLine(fs[0])), fs[1..]);
    }
  }

  // ----- header lines as they are printed -----

  lemma FieldsText(h: Fields, tail: string)
    requires h != []
    ensures FieldsToString(h) + tail == FieldLine(h[0]) + (CRLF + (FieldsToString(h[1..]) + tail))
  {
    var name, value, more := h[0].0, h[0].1, FieldsToString(h[1..]);
    Reassociate(": ", value, CRLF + more);
    Reassociate(name, ": " + value, CRLF + more);
    Reassociate(name + (": " + value), CRLF + more, tail);
    Reassociate(CRLF, more, tail);
  }

  /** The names read before a field are smaller than its name, and the rest can follow it. */
  lemma NextField(was: Fields, h: Fields)
    requires GoodFields(h) && Sorted(was + h) && h != []
    ensures forall f :: f in was ==> LessNoCase(f.0, h[0].0)
    ensures GoodFields(h[1..]) && was + [h[0]] + h[1..] == was + h && GoodField(h[0])
  {
    hide GoodField, LessNoCase;
    var all := was + h;
    assert h[0] in h && forall f :: f in h[1..] ==> f in h;
    assert all[|was|] == h[0] && forall i :: 0 <= i < |was| ==> all[i] == was[i];
    assert was + [h[0]] + h[1..] == all;
  }

  /** A line at the front of the text is one step of reading it. */
  lemma LineParsed(line: string, tail: string, was: Fields)
    requires InLine(line)
    ensures ParseFields(line + (CRLF + tail), was) == ParseFields(tail, AddLine(was, line))
  {
    hide AddLine, FindTag, Unbroken;
    LineEnd(line, tail);
    LineSliced(line, tail);
  }

  /** Reading the text of a header map gives the map back. */
  lemma {:induction false} FieldsRoundTrip(h: Fields, was: Fields)
    requires GoodFields(h) && Sorted(was + h)
    ensures ParseFields(FieldsToString(h) + CRLF, was) == was + h
    decreases |h|
  {
    hide ParseFields, FieldsToString, AddLine, Put, FieldLine, GoodField, GoodFields, Sorted, InLine, LessNoCase;
    if h == [] {
      BlankLineAddsNothing(was);
    } else {
      NextField(was, h);
      FieldsText(h, CRLF);
      FieldLineIsLine(h[0]);
      LineParsed(FieldLine(h[0]), FieldsToString(h[1..]) + CRLF, was);
      AddFieldLine(was, h[0]);
      PutLast(was, h[0].0, h[0].1);
      FieldsRoundTrip(h[1..], was + [h[0]]);
    }
  }

  lemma LineSliced(line: string, tail: string)
    ensures var s := line + (CRLF + tail);
            s[..|line|] == line && s[|line| + 2..] == tail && |line| < |s|
  {
  }

  lemma BlankLineAddsNothing(h: Fields)
    ensures ParseFields(FieldsToString([]) + CRLF, h) == h + []
  {
    assert "" + CRLF == "" + (CRLF + "") == CRLF;
    LineParsed("", "", h);
    assert ParseFields("", h) == h;
  }

  // ----- where the header ends -----

  lemma BlankIsCrlf(s: string, j: nat)
    requires At(s, BLANK, j)
    ensures At(s, CRLF, j) && s[j] == CR && s[j + 2] == CR
  {
    assert s[j..j + 2] == s[j..j + 4][..2];
  }

  lemma NoBlankInLine(line: string, rest: string, j: nat)
    requires InLine(line) && j < |line|
    ensures !At(line + (CRLF + rest), BLANK, j)
  {
    hide At;
    FirstCrlf(line, rest);
    if At(line + (CRLF + rest), BLANK, j) {
      BlankIsCrlf(line + (CRLF + rest), j);
    }
  }

  lemma LastLineEnds(line: string, tail: string)
    requires InLine(line)
    ensures FirstAt(line + (CRLF + (CRLF + tail)), BLANK, |line|)
  {
    var s := line + (CRLF + (CRLF + tail));
    assert s[|line|..|line| + 4] == BLANK;
    assert s[..|line| + 4] == line + BLANK;
    forall j | 0 <= j < |line|
      ensures !At(s, BLANK, j)
    {
      NoBlankInLine(line, CRLF + tail, j);
    }
  }

  lemma LineGoesOn(line: string, rest: string, i: nat)
    requires InLine(line) && rest != "" && rest[0] != CR && FirstAt(rest, BLANK, i)
    ensures FirstAt(line + (CRLF + rest), BLANK, |line| + 2 + i)
  {
    var p := line + CRLF;
    var s := line + (CRLF + rest);
    assert s == p + rest;
    assert s[..|p| + i + 4] == p + rest[..i + 4];
    forall j | 0 <= j < |p| + i
      ensures !At(s, BLANK, j)
    {
      NoBlankBefore(line, p, rest, i, j);
    }
    AtShift(p, rest, BLANK, i);
  }

  lemma NoBlankBefore(line: string, p: string, rest: string, i: nat, j: nat)
    requires InLine(line) && p == line + CRLF && rest != "" && rest[0] != CR && FirstAt(rest, BLANK, i)
    requires j < |p| + i
    ensures !At(p + rest, BLANK, j)
  {
    assert p + rest == line + (CRLF + rest);
    if j < |line| {
      NoBlankInLine(line, rest, j);
    } else if j < |p| {
      if At(p + rest, BLANK, j) {
        BlankIsCrlf(p + rest, j);
      }
    } else {
      AtShift(p, rest, BLANK, j - |p|);
    }
  }

  lemma FieldsLength(h: Fields)
    requires h != []
    ensures |FieldsToString(h)| == |FieldLine(h[0])| + 2 + |FieldsToString(h[1..])|
  {
  }

  lemma FieldsStart(h: Fields, tail: string)
    requires GoodFields(h) && h != []
    ensures var s := FieldsToString(h) + tail; s != "" && s[0] != CR && s[0] != LF
  {
    assert h[0] in h;
    FieldsText(h, tail);
    FieldLineIsLine(h[0]);
  }

  /** The text of a header map, up to the blank line. */
  lemma {:induction false} BlankLineEnds(h: Fields, tail: string)
    requires GoodFields(h) && h != []
    ensures |FieldsToString(h)| >= 2
    ensures FirstAt(FieldsToString(h) + (CRLF + tail), BLANK, |FieldsToString(h)| - 2)
    decreases |h|
  {
    hide FirstAt, At, FieldLine;
    var line := FieldLine(h[0]);
    FieldsText(h, CRLF + tail);
    FieldsLength(h);
    NextField([], h);
    FieldLineIsLine(h[0]);
    if h[1..] == [] {
      LastLineEnds(line, tail);
      assert "" + (CRLF + tail) == CRLF + tail;
    } else {
      var rest := FieldsToString(h[1..]) + (CRLF + tail);
      BlankLineEnds(h[1..], tail);
      FieldsStart(h[1..], CRLF + tail);
      LineGoesOn(line, rest, |FieldsToString(h[1..])| - 2);
    }
  }
}
