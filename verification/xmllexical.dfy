/**
 The parts XML is read in by `native/mars/comm/tinyxml2.cc`: names, text up to a
 tag, whitespace, and what escaped text and line ends are decoded to.
 */
module XmlLexical {

  import opened Options
  import opened Sequences
  import opened Strings
  import opened XmlText
  import opened XmlDocuments

  /** Free of the carriage returns that reading folds away and of terminators. */
  predicate CleanText(s: string) {
    NUL !in s && CR !in s
  }

  predicate IsName(s: string) {
    s != "" && IsNameStartChar(s[0]) && forall c :: c in s ==> IsNameChar(c)
  }

  predicate Contains(s: string, tag: string) {
    exists i :: 0 <= i <= |s| && tag <= s[i..]
  }

  const CAPITALS: string := "ABCDEFGHIJKLMNOPQRSTUVWXYZ"
  const SMALL: string := "abcdefghijklmnopqrstuvwxyz"
  const DIGITS: string := "0123456789"

  /** The characters of s are those from first on, in order. */
  lemma InRow(s: string, first: char, c: char)
    requires forall i :: 0 <= i < |s| ==> s[i] as int == first as int + i
    ensures c in s <==> first as int <= c as int < first as int + |s|
  {
    if first as int <= c as int < first as int + |s| {
      assert s[c as int - first as int] == c;
    }
  }

  /** What a name consists of: every byte above ASCII counts as a letter. */
  lemma NameAlphabet(c: char)
    ensures IsNameStartChar(c) <==> c in CAPITALS || c in SMALL || c == ':' || c == '_' || c as int >= 128
    ensures IsNameChar(c) <==> IsNameStartChar(c) || c in DIGITS || c == '.' || c == '-'
  {
    InRow(CAPITALS, 'A', c);
    InRow(SMALL, 'a', c);
    InRow(DIGITS, '0', c);
    hide CAPITALS, SMALL, DIGITS;
  }

  // ----- lexical round trips -----

  lemma {:induction false} NameLengthOf(name: string, rest: string)
    requires forall c :: c in name ==> IsNameChar(c)
    requires rest == "" || !IsNameChar(rest[0])
    ensures NameLength(name + rest) == |name|
  {
    if name == "" {
      assert name + rest == rest;
    } else {
      assert (name + rest)[1..] == name[1..] + rest;
      assert forall c :: c in name[1..] ==> c in name;
      NameLengthOf(name[1..], rest);
    }
  }

  lemma NameRoundTrip(name: string, rest: string)
    requires IsName(name) && (rest == "" || !IsNameChar(rest[0]))
    ensures ParseName(name + rest) == Part(name, rest)
  {
    var s := name + rest;
    assert s[1..] == name[1..] + rest;
    assert forall c :: c in name[1..] ==> c in name;
    NameLengthOf(name[1..], rest);
  }

  lemma NoEarlierTag(v: string, tag: string, rest: string, k: nat)
    requires SharpTag(tag) && !Contains(v, tag) && k < |v|
    ensures !(tag <= (v + tag + rest)[k..])
  {
    var s := v + tag + rest;
    var n := |tag| - 1;
    if k + n < |v| {
      assert s[k..][..n + 1] == v[k..][..n + 1];
      assert !(tag <= v[k..]);
    } else {
      assert s[k..][n] == s[k + n] == tag[k + n - |v|] != tag[n];
    }
  }

  lemma {:induction false} FindTagAfter(v: string, tag: string, rest: string, k: nat)
    requires SharpTag(tag) && !Contains(v, tag) && k <= |v|
    ensures FindTag(v + tag + rest, tag, k) == |v|
    decreases |v| - k
  {
    if k < |v| {
      NoEarlierTag(v, tag, rest, k);
      FindTagAfter(v, tag, rest, k + 1);
    } else {
      assert (v + tag + rest)[k..] == tag + rest;
    }
  }

  lemma TextRoundTrip(v: string, tag: string, rest: string)
    requires SharpTag(tag) && !Contains(v, tag)
    ensures ParseText(v + tag + rest, tag) == Part(v, rest)
  {
    FindTagAfter(v, tag, rest, 0);
    var s := v + tag + rest;
    assert s[..|v|] == v && s[|v| + |tag|..] == rest;
  }

  // ----- escaping and decoding -----

  /** Each escaped character is one unit of decoding, whatever the write position shows. */
  lemma UnitOfEscaped(c: char, restricted: bool, rest: string, stale: char)
    requires c != CR && (c == LF ==> rest == "" || rest[0] != CR)
    ensures Unit(TEXT, EscapeChar(c, restricted) + rest, stale) == (|EscapeChar(c, restricted)|, [c])
  {
    var i := EntityOf(c, restricted);
    if i < |ENTITIES| {
      UnitOfEntity(i, rest, stale);
    } else {
      assert c != '&' && [c] + rest == EscapeChar(c, restricted) + rest;
    }
  }

  lemma UnitOfEntity(i: nat, rest: string, stale: char)
    requires i < |ENTITIES|
    ensures var e := "&" + ENTITIES[i].0 + ";";
            Unit(TEXT, e + rest, stale) == (|e|, [ENTITIES[i].1])
  {
    hide CharRef;
    var t := ENTITIES[i].0 + ";" + rest;
    var s := "&" + ENTITIES[i].0 + ";" + rest;
    assert s == "&" + t && ENTITIES[i].0 + ";" <= t;
    EntityFound(t, i, 0);
    hide EntityFrom;
    assert s[0] == '&' && s[1] == ENTITIES[i].0[0] != '#';
  }

  /** The five entities and what they stand for. */
  lemma PredefinedEntities(rest: string, stale: char)
    ensures Unit(TEXT, "&quot;" + rest, stale) == (6, "\"")
    ensures Unit(TEXT, "&amp;" + rest, stale) == (5, "&")
    ensures Unit(TEXT, "&apos;" + rest, stale) == (6, "'")
    ensures Unit(TEXT, "&lt;" + rest, stale) == (4, "<")
    ensures Unit(TEXT, "&gt;" + rest, stale) == (4, ">")
  {
    hide Unit;
    UnitOfEntity(0, rest, stale);
    UnitOfEntity(1, rest, stale);
    UnitOfEntity(2, rest, stale);
    UnitOfEntity(3, rest, stale);
    UnitOfEntity(4, rest, stale);
    assert "&" + "quot" + ";" == "&quot;" && "&" + "amp" + ";" == "&amp;" && "&" + "apos" + ";" == "&apos;";
    assert "&" + "lt" + ";" == "&lt;" && "&" + "gt" + ";" == "&gt;";
  }

  /** No two table entries are prefixes of one text: their first two characters differ. */
  lemma EntitiesDiffer(t: string, i: nat, j: nat)
    requires i < |ENTITIES| && j < |ENTITIES| && i != j && ENTITIES[i].0 + ";" <= t
    ensures !(ENTITIES[j].0 + ";" <= t)
  {
    var e, d := ENTITIES[i].0 + ";", ENTITIES[j].0 + ";";
    assert e[0] == t[0] && e[1] == t[1];
    assert e[0] != d[0] || e[1] != d[1];
  }

  lemma {:induction false} EntityFound(t: string, i: nat, j: nat)
    requires j <= i < |ENTITIES| && ENTITIES[i].0 + ";" <= t
    ensures EntityFrom("&" + t, j) == Some(i)
    decreases i - j
  {
    assert ("&" + t)[1..] == t;
    if j < i {
      EntitiesDiffer(t, i, j);
      EntityFound(t, i, j + 1);
    }
  }

  lemma EscapeHead(s: string, restricted: bool)
    requires s != "" && CR !in s
    ensures Escape(s, restricted) != "" && Escape(s, restricted)[0] != CR
  {
    assert s[0] in s;
    assert Escape(s, restricted)[0] == EscapeChar(s[0], restricted)[0];
  }

  /** One unit more has been decoded. */
  lemma DecodeUnit(f: Flags, pre: string, e: string, rest: string, out: string, bytes: string)
    requires e != "" && |out| <= |pre|
    requires Unit(f, e + rest, (pre + (e + rest))[|out|]) == (|e|, bytes)
    ensures |out + bytes| <= |pre + e|
    ensures Decode(f, pre + (e + rest), |pre|, out) == Decode(f, (pre + e) + rest, |pre + e|, out + bytes)
  {
    hide Unit, Decode;
    var text := pre + (e + rest);
    assert text[|pre|..] == e + rest;
    DecodeNext(f, text, |pre|, out);
    assert text == (pre + e) + rest;
  }

  /** Escaped text is read back wherever it stands, and reading goes on behind it. */
  lemma {:induction false} DecodeEscaped(s: string, restricted: bool, pre: string, out: string, rest: string)
    requires CR !in s && |out| <= |pre| && (LF !in s || rest == "" || rest[0] != CR)
    ensures |out + s| <= |pre + Escape(s, restricted)|
    ensures Decode(TEXT, pre + (Escape(s, restricted) + rest), |pre|, out)
            == Decode(TEXT, pre + Escape(s, restricted) + rest, |pre + Escape(s, restricted)|, out + s)
    decreases |s|
  {
    hide Unit, EscapeChar, Decode;
    if s == "" {
      assert Escape(s, restricted) + rest == rest && pre + Escape(s, restricted) == pre && out + s == out;
    } else {
      var c, more := s[0], Escape(s[1..], restricted);
      var e := EscapeChar(c, restricted);
      assert forall x :: x in s[1..] ==> x in s;
      assert s[0] in s;
      if s[1..] == "" {
        assert more + rest == rest;
      } else {
        EscapeHead(s[1..], restricted);
      }
      UnitOfEscaped(c, restricted, more + rest, (pre + (e + (more + rest)))[|out|]);
      DecodeUnit(TEXT, pre, e, more + rest, out, [c]);
      Reassociate(e, more, rest);
      Reassociate(pre, e, more + rest);
      Reassociate(pre, e, more);
      DecodeEscaped(s[1..], restricted, pre + e, out + [c], rest);
      Reassociate(out, [c], s[1..]);
      assert s == [c] + s[1..];
    }
  }

  lemma DecodeEnds(f: Flags, s: string, out: string)
    requires |out| <= |s|
    ensures Decode(f, s + "", |s|, out) == out
  {
    assert s + "" == s;
  }

  lemma ValueOfEscaped(s: string, restricted: bool)
    requires CleanText(s)
    ensures Value(TEXT, Escape(s, restricted)) == s
  {
    hide Decode, Escape;
    var e := Escape(s, restricted);
    DecodeEscaped(s, restricted, "", "", "");
    assert "" + (e + "") == e && "" + e + "" == e && "" + e == e && "" + s == s;
    DecodeEnds(TEXT, e, s);
    CleanCString(s);
  }

  lemma CleanCString(s: string)
    requires NUL !in s
    ensures CStringAt(s, 0) == s
  {
    assert s[0..] == s;
    NoIndex(s, 0, NUL);
  }

  /** What stays as it is: no carriage return where line ends are folded, no ampersand where entities are replaced. */
  predicate Untouched(s: string, f: Flags) {
    (f.newlines ==> CR !in s) && (f.entities ==> '&' !in s)
  }

  lemma PlainUnit(c: char, f: Flags, rest: string, stale: char)
    requires Untouched([c], f) && (f.newlines && c == LF ==> rest == "" || rest[0] != CR)
    ensures Unit(f, [c] + rest, stale) == (1, [c])
  {
    assert c in [c];
  }

  /** Such text is read as it stands. */
  lemma {:induction false} DecodePlain(s: string, f: Flags, pre: string, out: string, rest: string)
    requires Untouched(s, f) && |out| <= |pre| && (LF !in s || rest == "" || rest[0] != CR)
    ensures Decode(f, pre + (s + rest), |pre|, out) == Decode(f, pre + s + rest, |pre + s|, out + s)
    decreases |s|
  {
    hide Unit, Decode;
    if s == "" {
      assert s + rest == rest && pre + s == pre && out + s == out;
    } else {
      var more := s[1..];
      assert forall x :: x in more ==> x in s;
      assert s[0] in s && (more != "" ==> (more + rest)[0] in s);
      assert s == [s[0]] + more;
      assert more == "" ==> more + rest == rest;
      PlainUnit(s[0], f, more + rest, (pre + ([s[0]] + (more + rest)))[|out|]);
      DecodeUnit(f, pre, [s[0]], more + rest, out, [s[0]]);
      Reassociate([s[0]], more, rest);
      Reassociate(pre, [s[0]], more + rest);
      Reassociate(pre, [s[0]], more);
      DecodePlain(more, f, pre + [s[0]], out + [s[0]], rest);
      Reassociate(out, [s[0]], more);
    }
  }

  /** Whatever the flags that are on, short of collapsing. */
  lemma ValueOfUntouched(s: string, f: Flags)
    requires NUL !in s && Untouched(s, f) && !f.collapse
    ensures Value(f, s) == s
  {
    hide Decode;
    DecodePlain(s, f, "", "", "");
    assert "" + (s + "") == s && "" + s + "" == s && "" + s == s;
    DecodeEnds(f, s, s);
    CleanCString(s);
  }

  lemma ValueOfPlain(s: string)
    requires CleanText(s)
    ensures Value(NEWLINES, s) == s
  {
    ValueOfUntouched(s, NEWLINES);
  }

  // ----- line ends -----

  /** The line ends of Windows, Unix and old Macs, and one the other way round. */
  predicate IsLineEnd(e: string) { e == [CR, LF] || e == [LF] || e == [CR] || e == [LF, CR] }

  /** How text is written where entities are processed, and where they are left alone. */
  function WrittenAs(s: string, f: Flags, restricted: bool): string { if f.entities then Escape(s, restricted) else s }

  function LinesText(lines: seq<string>, ends: seq<string>, f: Flags, restricted: bool): string
    requires |lines| == |ends| + 1
  {
    WrittenAs(lines[0], f, restricted)
    + if ends == [] then "" else ends[0] + LinesText(lines[1..], ends[1..], f, restricted)
  }

  function JoinLines(lines: seq<string>): string
    requires lines != []
  {
    lines[0] + if |lines| == 1 then "" else [LF] + JoinLines(lines[1..])
  }

  predicate IsLine(s: string) { CR !in s && LF !in s && NUL !in s }

  /** Lines with line ends between them, of which no two around an empty line read as one. */
  predicate AreLines(lines: seq<string>, ends: seq<string>) {
    && |lines| == |ends| + 1
    && (forall i :: 0 <= i < |lines| ==> IsLine(lines[i]))
    && (forall i :: 0 <= i < |ends| ==> IsLineEnd(ends[i]))
    && (forall i :: 0 < i < |ends| && lines[i] == "" && |ends[i - 1]| == 1 ==> ends[i][0] == ends[i - 1][0])
  }

  lemma LineEndUnit(f: Flags, e: string, rest: string, stale: char)
    requires f.newlines && IsLineEnd(e) && (|e| == 1 && rest != "" && rest[0] in [CR, LF] ==> rest[0] == e[0])
    ensures Unit(f, e + rest, stale) == (|e|, [LF])
  {
    assert (e + rest)[0] == e[0] && (|e| == 1 && rest != "" ==> (e + rest)[1] == rest[0]);
  }

  lemma LinesStart(lines: seq<string>, ends: seq<string>, f: Flags, restricted: bool)
    requires AreLines(lines, ends)
    ensures var t := LinesText(lines, ends, f, restricted);
            if lines[0] != "" then t != "" && t[0] != CR && t[0] != LF
            else if ends != [] then t != "" && t[0] == ends[0][0] else t == ""
  {
    hide EscapeChar;
    var line := WrittenAs(lines[0], f, restricted);
    if lines[0] != "" {
      assert lines[0][0] in lines[0];
      EscapedIsNoEnd(lines[0][0], restricted);
      assert line != "" && line[0] != CR && line[0] != LF;
    }
  }

  lemma EscapedIsNoEnd(c: char, restricted: bool)
    requires c != CR && c != LF
    ensures EscapeChar(c, restricted)[0] != CR && EscapeChar(c, restricted)[0] != LF
  {
  }

  lemma OneLine(s: string, f: Flags, restricted: bool, pre: string, out: string, rest: string)
    requires (f == TEXT || f == NEWLINES) && IsLine(s) && |out| <= |pre|
    ensures var w := WrittenAs(s, f, restricted);
            && |out + s| <= |pre + w|
            && Decode(f, pre + (w + rest), |pre|, out) == Decode(f, pre + w + rest, |pre + w|, out + s)
  {
    hide Decode, Escape;
    if f.entities {
      DecodeEscaped(s, restricted, pre, out, rest);
    } else {
      DecodePlain(s, f, pre, out, rest);
    }
  }

  lemma {:induction false} DecodeLines(lines: seq<string>, ends: seq<string>, f: Flags, restricted: bool,
                                       pre: string, out: string)
    requires (f == TEXT || f == NEWLINES) && AreLines(lines, ends) && |out| <= |pre|
    ensures Decode(f, pre + LinesText(lines, ends, f, restricted), |pre|, out) == out + JoinLines(lines)
    decreases |lines|
  {
    hide Decode, Unit, WrittenAs, IsLineEnd, IsLine;
    var s := lines[0];
    var w := WrittenAs(s, f, restricted);
    if ends == [] {
      OneLine(s, f, restricted, pre, out, "");
      DecodeEnds(f, pre + w, out + s);
    } else {
      var e, more := ends[0], LinesText(lines[1..], ends[1..], f, restricted);
      NextLine(lines, ends, f, restricted);
      OneLine(s, f, restricted, pre, out, e + more);
      LineEndUnit(f, e, more, (pre + w + (e + more))[|out + s|]);
      DecodeUnit(f, pre + w, e, more, out + s, [LF]);
      DecodeLines(lines[1..], ends[1..], f, restricted, pre + w + e, out + s + [LF]);
      Reassociate(out, s, [LF] + JoinLines(lines[1..]));
      Reassociate(out + s, [LF], JoinLines(lines[1..]));
    }
  }

  lemma NextLine(lines: seq<string>, ends: seq<string>, f: Flags, restricted: bool)
    requires AreLines(lines, ends) && ends != []
    ensures IsLineEnd(ends[0]) && ends[0] != "" && AreLines(lines[1..], ends[1..])
    ensures var more := LinesText(lines[1..], ends[1..], f, restricted);
            |ends[0]| == 1 && more != "" && more[0] in [CR, LF] ==> more[0] == ends[0][0]
  {
    hide WrittenAs, LinesText, IsLine;
    var ls, es := lines[1..], ends[1..];
    assert forall i :: 0 <= i < |ls| ==> ls[i] == lines[i + 1];
    assert forall i :: 0 <= i < |es| ==> es[i] == ends[i + 1];
    LinesStart(ls, es, f, restricted);
  }

  /**
   Lines with any line ends between them are read as the lines with LF between
   them, in text and attribute values as well as in CDATA, comments,
   declarations and unknowns.
   */
  lemma LinesFolded(lines: seq<string>, ends: seq<string>, f: Flags, restricted: bool)
    requires (f == TEXT || f == NEWLINES) && AreLines(lines, ends)
    ensures Value(f, LinesText(lines, ends, f, restricted)) == JoinLines(lines)
  {
    hide Decode, LinesText, IsLineEnd;
    var t := LinesText(lines, ends, f, restricted);
    DecodeLines(lines, ends, f, restricted, "", "");
    assert "" + t == t && "" + JoinLines(lines) == JoinLines(lines);
    LinesHaveNoNul(lines);
    CleanCString(JoinLines(lines));
  }

  lemma {:induction false} LinesHaveNoNul(lines: seq<string>)
    requires lines != [] && forall i :: 0 <= i < |lines| ==> IsLine(lines[i])
    ensures NUL !in JoinLines(lines)
    decreases |lines|
  {
    if |lines| > 1 {
      LinesHaveNoNul(lines[1..]);
    }
  }

  // ----- what escaping keeps out, and whitespace -----

  lemma {:induction false} EscapedIsFree(s: string, restricted: bool, c: char)
    requires EntityOf(c, restricted) < |ENTITIES| && c != '&'
    ensures c !in Escape(s, restricted)
  {
    if s != "" {
      EscapedIsFree(s[1..], restricted, c);
      EscapeCharIsFree(s[0], restricted, c);
    }
  }

  lemma EscapeCharIsFree(x: char, restricted: bool, c: char)
    requires EntityOf(c, restricted) < |ENTITIES| && c != '&'
    ensures c !in EscapeChar(x, restricted)
  {
    var i := EntityOf(x, restricted);
    assert c == '"' || c == '\'' || c == '<' || c == '>';
    if i < |ENTITIES| {
      assert c !in "&" + "quot" + ";" && c !in "&" + "amp" + ";" && c !in "&" + "apos" + ";";
      assert c !in "&" + "lt" + ";" && c !in "&" + "gt" + ";";
    }
  }

  lemma FreeOfSingle(s: string, c: char)
    requires c !in s
    ensures !Contains(s, [c])
  {
    forall i | 0 <= i <= |s|
      ensures !([c] <= s[i..])
    {
      assert i < |s| ==> s[i..][0] == s[i];
    }
  }

  lemma SkipNothing(s: string)
    requires s != "" && !IsWhiteSpace(s[0])
    ensures SkipWhiteSpace(s) == s && SkipWhiteSpace(" " + s) == s
  {
    assert (" " + s)[1..] == s;
  }

  lemma PrefixWithin(pre: string, v: string, c: char, tail: string)
    requires c !in pre
    ensures pre <= v + ([c] + tail) <==> pre <= v
  {
    var s := v + ([c] + tail);
    if |pre| <= |v| {
      assert s[..|pre|] == v[..|pre|];
    } else {
      assert pre[|v|] in pre && s[|v|] == c;
    }
  }

  lemma PrefixOfSum(x: string, y: string, t: string)
    ensures x + y <= x + t <==> y <= t
  {
    assert (x + t)[|x|..] == t;
    if x + y <= x + t {
      assert (x + y)[|x|..] == y;
    }
  }

  lemma PlainMarkup(s: string, span: string, rest: string, docEmpty: bool)
    requires var t := SkipWhiteSpace(s); t != "" && t[0] != '<' && LeafAt(t) == None
    requires ParseText(s, "<") == Part(span, rest) && rest != ""
    ensures ParseNode(s, docEmpty) == OneNode(Text(Value(TEXT, span), false), Open, None, "<" + rest)
  {
    hide ParseText, SkipWhiteSpace, Value, LeafAt;
  }

  lemma NotMarkup(t: string)
    requires t != "" && t[0] != '<'
    ensures LeafAt(t) == None
  {
    assert "<?"[0] == '<' && "<!--"[0] == '<' && "<![CDATA["[0] == '<' && "<!"[0] == '<';
  }
}
