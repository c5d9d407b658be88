/**
 XML as people write it, read by `native/mars/comm/tinyxml2.cc`: whitespace
 wherever it may stand, either kind of quotes, elements closed in either way, a
 byte order mark. What is written is what the parser reads.
 */
module XmlWritten {

  import opened Options
  import opened Sequences
  import opened Strings
  import opened XmlText
  import opened XmlDocuments
  import opened XmlLexical

  // ----- what is written -----

  datatype WrittenAttribute = WrittenAttribute(before: string, name: string, beforeEqual: string, afterEqual: string,
                                               quote: char, raw: string)

  /** Gaps are the whitespace in front of a markup, behind its '<', and in front of its end. */
  datatype Written =
    | WrittenElement(gap: string, inner: string, name: string, attributes: seq<WrittenAttribute>, tail: string,
                     content: Content)
    | WrittenLeaf(gap: string, kind: LeafKind, raw: string)
    | WrittenText(raw: string)

  /** A tag that closes itself, or children and a closing tag. */
  datatype Content = Empty | Children(children: seq<Written>, gap: string, inner: string, tail: string)

  function AttributeText(a: WrittenAttribute): string {
    a.before + (a.name + (a.beforeEqual + ("=" + (a.afterEqual + ([a.quote] + (a.raw + [a.quote]))))))
  }

  function AttributesText(attributes: seq<WrittenAttribute>): string {
    if attributes == [] then "" else AttributeText(attributes[0]) + AttributesText(attributes[1..])
  }

  function LeafText(kind: LeafKind, raw: string): string {
    match kind
    case DeclarationLeaf => "<?" + (raw + "?>")
    case CommentLeaf => "<!--" + (raw + "-->")
    case CDataLeaf => "<![CDATA[" + (raw + "]]>")
    case UnknownLeaf => "<!" + (raw + ">")
  }

  function TextOf(w: Written): string
    decreases w, 1
  {
    match w
    case WrittenElement(gap, inner, name, attributes, tail, content) =>
      gap + ("<" + (inner + (name + (AttributesText(attributes) + (tail + ContentText(name, content))))))
    case WrittenLeaf(gap, kind, raw) => gap + LeafText(kind, raw)
    case WrittenText(raw) => raw
  }

  /** From the end of the opening tag on. */
  function ContentText(name: string, content: Content): string
    decreases content, 0
  {
    match content
    case Empty => "/>"
    case Children(children, gap, inner, tail) => ">" + (ListText(children) + ClosingText(gap, inner, name, tail))
  }

  function ClosingText(gap: string, inner: string, name: string, tail: string): string {
    gap + ("<" + (inner + ("/" + (name + (tail + ">")))))
  }

  function ListText(ws: seq<Written>): string
    decreases ws, 0
  {
    if ws == [] then "" else TextOf(ws[0]) + ListText(ws[1..])
  }

  // ----- what it means -----

  function AttributesMeant(attributes: seq<WrittenAttribute>): seq<Attribute> {
    if attributes == [] then [] else
      [Attribute(attributes[0].name, Value(TEXT, attributes[0].raw))] + AttributesMeant(attributes[1..])
  }

  function LeafMeant(kind: LeafKind, value: string): Node {
    match kind
    case DeclarationLeaf => Declaration(value)
    case CommentLeaf => Comment(value)
    case CDataLeaf => Text(value, true)
    case UnknownLeaf => Unknown(value)
  }

  function Meant(w: Written): Node {
    match w
    case WrittenElement(_, _, name, attributes, _, content) =>
      Element(name, AttributesMeant(attributes), if content.Empty? then [] else AllMeant(content.children))
    case WrittenLeaf(_, kind, raw) => LeafMeant(kind, Value(NEWLINES, raw))
    case WrittenText(raw) => Text(Value(TEXT, raw), false)
  }

  function AllMeant(ws: seq<Written>): seq<Node> {
    if ws == [] then [] else [Meant(ws[0])] + AllMeant(ws[1..])
  }

  // ----- what may be written -----

  predicate WellWrittenAttribute(a: WrittenAttribute) {
    && IsGap(a.before) && IsName(a.name) && IsGap(a.beforeEqual) && IsGap(a.afterEqual)
    && (a.quote == '"' || a.quote == '\'') && a.quote !in a.raw
  }

  /** Names are separated from the first attribute and not repeated; other attributes may follow directly. */
  ghost predicate WellWrittenAttributes(attributes: seq<WrittenAttribute>) {
    && (forall i :: 0 <= i < |attributes| ==> WellWrittenAttribute(attributes[i]))
    && (forall i, j :: 0 <= i < j < |attributes| ==> attributes[i].name != attributes[j].name)
    && (attributes != [] ==> attributes[0].before != "")
  }

  predicate WellWrittenLeaf(kind: LeafKind, raw: string) {
    match kind
    case DeclarationLeaf => !Contains(raw, "?>")
    case CommentLeaf => !Contains(raw, "-->")
    case CDataLeaf => !Contains(raw, "]]>")
    case UnknownLeaf => '>' !in raw && !("--" <= raw) && !("[CDATA[" <= raw)
  }

  /** Declarations are taken only as long as the document has no node. */
  ghost predicate WellWritten(w: Written, docEmpty: bool) {
    match w
    case WrittenElement(gap, inner, name, attributes, tail, content) =>
      && IsGap(gap) && IsGap(inner) && IsName(name) && WellWrittenAttributes(attributes) && IsGap(tail)
      && WellWrittenContent(content, docEmpty)
    case WrittenLeaf(gap, kind, raw) =>
      IsGap(gap) && WellWrittenLeaf(kind, raw) && (kind == DeclarationLeaf ==> docEmpty)
    case WrittenText(raw) => '<' !in raw && !IsGap(raw)
  }

  ghost predicate WellWrittenContent(content: Content, docEmpty: bool) {
    match content
    case Empty => true
    case Children(children, gap, inner, tail) =>
      && WellWrittenList(children, docEmpty, false) && IsGap(gap) && IsGap(inner) && IsGap(tail)
      && (EndsInText(children) ==> gap == "")
  }

  predicate EndsInText(ws: seq<Written>) { ws != [] && ws[|ws| - 1].WrittenText? }

  /** Whitespace behind text belongs to the text, and texts are not adjacent. */
  ghost predicate WellWrittenList(ws: seq<Written>, docEmpty: bool, top: bool) {
    && (forall i :: 0 <= i < |ws| ==> WellWritten(ws[i], docEmpty && (!top || i == 0)))
    && (forall i :: 0 < i < |ws| && ws[i - 1].WrittenText? ==> !ws[i].WrittenText? && ws[i].gap == "")
  }

  // ----- whitespace -----

  lemma {:induction false} GapSkipped(g: string, rest: string)
    requires IsGap(g)
    ensures SkipWhiteSpace(g + rest) == SkipWhiteSpace(rest)
  {
    if g == "" {
      assert g + rest == rest;
    } else {
      assert (g + rest)[1..] == g[1..] + rest && g[0] in g;
      assert forall c :: c in g[1..] ==> c in g;
      GapSkipped(g[1..], rest);
    }
  }

  lemma MarkSkipped(g: string, rest: string)
    requires IsGap(g) && rest != "" && !IsWhiteSpace(rest[0])
    ensures SkipWhiteSpace(g + rest) == rest
  {
    GapSkipped(g, rest);
    SkipNothing(rest);
  }

  /** Behind a name no gap can be taken for more of it. */
  lemma GapEndsName(g: string, rest: string)
    requires IsGap(g) && (rest == "" || !IsNameChar(rest[0]))
    ensures g + rest == "" || !IsNameChar((g + rest)[0])
  {
    if g != "" {
      assert (g + rest)[0] == g[0] && g[0] in g;
    } else {
      assert g + rest == rest;
    }
  }

  // ----- attributes -----

  lemma ValueRead(a: WrittenAttribute, rest: string)
    requires WellWrittenAttribute(a)
    ensures ParseText(a.raw + ([a.quote] + rest), [a.quote]) == Part(a.raw, rest)
  {
    FreeOfSingle(a.raw, a.quote);
    TextRoundTrip(a.raw, [a.quote], rest);
    Reassociate(a.raw, [a.quote], rest);
  }

  /** An attribute from its name on, and what follows. */
  function AttributeBody(a: WrittenAttribute, rest: string): string {
    a.name + (a.beforeEqual + ("=" + (a.afterEqual + ([a.quote] + (a.raw + ([a.quote] + rest))))))
  }

  lemma AttributeRead(a: WrittenAttribute, rest: string)
    requires WellWrittenAttribute(a)
    ensures ParseAttribute(AttributeBody(a, rest)) == OneAttribute(Attribute(a.name, Value(TEXT, a.raw)), rest)
  {
    hide Value, ParseName, ParseText, SkipWhiteSpace, Contains, IsGap;
    var text := [a.quote] + (a.raw + ([a.quote] + rest));
    var after := "=" + (a.afterEqual + text);
    GapEndsName(a.beforeEqual, after);
    NameRoundTrip(a.name, a.beforeEqual + after);
    MarkSkipped(a.beforeEqual, after);
    assert after[1..] == a.afterEqual + text;
    MarkSkipped(a.afterEqual, text);
    assert text[1..] == a.raw + ([a.quote] + rest);
    ValueRead(a, rest);
  }

  lemma OneMoreAttribute(done: seq<Attribute>, a: WrittenAttribute, rest: string)
    requires WellWrittenAttribute(a)
    ensures ParseAttributes(AttributeText(a) + rest, done)
            == if HasAttribute(done, a.name) then TagFailed(ParsingAttribute)
               else ParseAttributes(rest, done + [Attribute(a.name, Value(TEXT, a.raw))])
  {
    hide ParseAttribute, Value, HasAttribute, SkipWhiteSpace, IsGap;
    var s := AttributeBody(a, rest);
    AttributeGoesOn(a, rest);
    AttributeRead(a, rest);
    assert s[0] == a.name[0];
    MarkSkipped(a.before, s);
  }

  lemma AttributeGoesOn(a: WrittenAttribute, rest: string)
    ensures AttributeText(a) + rest == a.before + AttributeBody(a, rest)
  {
    var q := [a.quote];
    Reassociate(a.raw, q, rest);
    Reassociate(q, a.raw + q, rest);
    Reassociate(a.afterEqual, q + (a.raw + q), rest);
    Reassociate("=", a.afterEqual + (q + (a.raw + q)), rest);
    Reassociate(a.beforeEqual, "=" + (a.afterEqual + (q + (a.raw + q))), rest);
    Reassociate(a.name, a.beforeEqual + ("=" + (a.afterEqual + (q + (a.raw + q)))), rest);
    Reassociate(a.before, a.name + (a.beforeEqual + ("=" + (a.afterEqual + (q + (a.raw + q))))), rest);
  }

  lemma {:induction false} AttributesRead(done: seq<Attribute>, todo: seq<WrittenAttribute>, end: string)
    requires forall a :: a in todo ==> WellWrittenAttribute(a)
    requires forall i, j :: 0 <= i < j < |todo| ==> todo[i].name != todo[j].name
    requires forall i :: 0 <= i < |todo| ==> !HasAttribute(done, todo[i].name)
    ensures ParseAttributes(AttributesText(todo) + end, done) == ParseAttributes(end, done + AttributesMeant(todo))
    decreases |todo|
  {
    hide ParseAttributes, AttributeText, Value;
    if todo == [] {
      assert AttributesText(todo) + end == end && done + AttributesMeant(todo) == done;
    } else {
      var a, meant := todo[0], Attribute(todo[0].name, Value(TEXT, todo[0].raw));
      Reassociate(AttributeText(a), AttributesText(todo[1..]), end);
      OneMoreAttribute(done, a, AttributesText(todo[1..]) + end);
      Reassociate(done, [meant], AttributesMeant(todo[1..]));
      forall i | 0 <= i < |todo| - 1
        ensures !HasAttribute(done + [meant], todo[1..][i].name)
      {
        assert !HasAttribute(done, todo[i + 1].name);
      }
      AttributesRead(done + [meant], todo[1..], end);
    }
  }

  /** Name, attributes and end of a tag. */
  lemma TagRead(name: string, attributes: seq<WrittenAttribute>, tail: string, sealed: bool, rest: string)
    requires IsName(name) && WellWrittenAttributes(attributes) && IsGap(tail)
    ensures var after := AttributesText(attributes) + (tail + (TagEnd(sealed) + rest));
            && ParseName(name + after) == Part(name, after)
            && ParseAttributes(after, []) == Tag(AttributesMeant(attributes), sealed, rest)
  {
    hide ParseAttributes, SkipWhiteSpace, IsGap, AttributesMeant;
    var end := tail + (TagEnd(sealed) + rest);
    assert forall a :: a in attributes ==> WellWrittenAttribute(a);
    AttributesRead([], attributes, end);
    TagEndRead(tail, sealed, rest, AttributesMeant(attributes));
    assert [] + AttributesMeant(attributes) == AttributesMeant(attributes);
    GapEndsName(tail, TagEnd(sealed) + rest);
    if attributes == [] {
      assert AttributesText(attributes) + end == end;
    } else {
      FirstGap(attributes, end);
    }
    NameRoundTrip(name, AttributesText(attributes) + end);
  }

  lemma FirstGap(attributes: seq<WrittenAttribute>, end: string)
    requires attributes != [] && attributes[0].before != "" && IsGap(attributes[0].before)
    ensures var s := AttributesText(attributes) + end; s != "" && !IsNameChar(s[0])
  {
    assert (AttributesText(attributes) + end)[0] == attributes[0].before[0];
    assert attributes[0].before[0] in attributes[0].before;
  }

  lemma TagEndRead(tail: string, sealed: bool, rest: string, attributes: seq<Attribute>)
    requires IsGap(tail)
    ensures ParseAttributes(tail + (TagEnd(sealed) + rest), attributes) == Tag(attributes, sealed, rest)
  {
    hide SkipWhiteSpace, IsGap;
    var s := TagEnd(sealed) + rest;
    MarkSkipped(tail, s);
    assert s[if sealed then 2 else 1..] == rest;
  }

  // ----- nodes -----

  lemma ElementMarkup(gap: string, s: string, docEmpty: bool)
    requires IsGap(gap) && (s == "" || (s[0] != '?' && s[0] != '!'))
    ensures ParseNode(gap + ("<" + s), docEmpty) == ParseElement(s, docEmpty)
  {
    var t := "<" + s;
    hide ParseElement, SkipWhiteSpace, LeafAt, IsGap;
    MarkSkipped(gap, t);
    NoLeaf(s);
    assert t[1..] == s;
  }

  lemma NoLeaf(s: string)
    requires s == "" || (s[0] != '?' && s[0] != '!')
    ensures LeafAt("<" + s) == None
  {
    var t := "<" + s;
    assert s != "" ==> t[1] == s[0];
    assert "<?"[1] == '?' && "<!--"[1] == '!' && "<![CDATA["[1] == '!' && "<!"[1] == '!';
  }

  /** Behind '<' a gap and then a name or a slash: no leaf. */
  lemma GapIsNoLeaf(inner: string, rest: string)
    requires IsGap(inner) && rest != "" && rest[0] != '?' && rest[0] != '!'
    ensures (inner + rest)[0] != '?' && (inner + rest)[0] != '!'
  {
    if inner != "" {
      assert (inner + rest)[0] == inner[0] && inner[0] in inner;
    } else {
      assert inner + rest == rest;
    }
  }

  lemma NameStarts(name: string, rest: string)
    requires IsName(name)
    ensures var s := name + rest; s != "" && !IsWhiteSpace(s[0]) && s[0] !in "/?!"
  {
    assert (name + rest)[0] == name[0];
  }

  lemma ElementIsTag(gap: string, inner: string, name: string, attributes: seq<WrittenAttribute>, tail: string,
                     sealed: bool, rest: string, docEmpty: bool)
    requires IsGap(gap) && IsGap(inner) && IsName(name) && WellWrittenAttributes(attributes) && IsGap(tail)
    ensures ParseNode(gap + ("<" + (inner + (name + (AttributesText(attributes)
                                                     + (tail + (TagEnd(sealed) + rest)))))), docEmpty)
            == ParseContent(name, false, AttributesMeant(attributes), sealed, rest, docEmpty)
  {
    hide ParseName, ParseNode, ParseAttributes, ParseContent, SkipWhiteSpace, IsName, IsGap, AttributesText,
      AttributesMeant, WellWrittenAttributes, TagEnd;
    var body := name + (AttributesText(attributes) + (tail + (TagEnd(sealed) + rest)));
    TagRead(name, attributes, tail, sealed, rest);
    NameStarts(name, AttributesText(attributes) + (tail + (TagEnd(sealed) + rest)));
    MarkSkipped(inner, body);
    GapIsNoLeaf(inner, body);
    ElementMarkup(gap, inner + body, docEmpty);
  }

  /**
   A tag with a slash in front is read like an element, attributes and all. If
   it also closes itself it is an element, else it ends the list it stands in.
   */
  lemma SlashedElement(gap: string, inner: string, name: string, attributes: seq<WrittenAttribute>, tail: string,
                       sealed: bool, rest: string, docEmpty: bool)
    requires IsGap(gap) && IsGap(inner) && IsName(name) && WellWrittenAttributes(attributes) && IsGap(tail)
    ensures ParseNode(gap + ("<" + (inner + ("/" + (name + (AttributesText(attributes)
                                                            + (tail + (TagEnd(sealed) + rest))))))), docEmpty)
            == OneNode(Element(name, AttributesMeant(attributes), []), if sealed then Sealed else Close, None, rest)
  {
    hide ParseName, ParseNode, ParseAttributes, ParseContent, SkipWhiteSpace, IsName, IsGap, AttributesText,
      AttributesMeant, WellWrittenAttributes, TagEnd;
    var body := "/" + (name + (AttributesText(attributes) + (tail + (TagEnd(sealed) + rest))));
    TagRead(name, attributes, tail, sealed, rest);
    MarkSkipped(inner, body);
    GapIsNoLeaf(inner, body);
    ElementMarkup(gap, inner + body, docEmpty);
    assert body[1..] == name + (AttributesText(attributes) + (tail + (TagEnd(sealed) + rest)));
    SlashedContent(name, AttributesMeant(attributes), sealed, rest, docEmpty);
  }

  lemma ClosingElement(gap: string, inner: string, name: string, tail: string, rest: string, docEmpty: bool)
    requires IsGap(gap) && IsGap(inner) && IsName(name) && IsGap(tail)
    ensures ParseNode(ClosingText(gap, inner, name, tail) + rest, docEmpty)
            == OneNode(Element(name, [], []), Close, None, rest)
  {
    hide ParseNode, IsName, IsGap;
    ClosingGoesOn(gap, inner, name, tail, rest);
    SlashedElement(gap, inner, name, [], tail, false, rest, docEmpty);
    assert AttributesText([]) + (tail + (">" + rest)) == tail + (">" + rest);
  }

  lemma ClosingGoesOn(gap: string, inner: string, name: string, tail: string, rest: string)
    ensures ClosingText(gap, inner, name, tail) + rest
            == gap + ("<" + (inner + ("/" + (name + (tail + (">" + rest))))))
  {
    Reassociate(tail, ">", rest);
    Reassociate(name, tail + ">", rest);
    Reassociate("/", name + (tail + ">"), rest);
    Reassociate(inner, "/" + (name + (tail + ">")), rest);
    Reassociate("<", inner + ("/" + (name + (tail + ">"))), rest);
    Reassociate(gap, "<" + (inner + ("/" + (name + (tail + ">")))), rest);
  }

  lemma SlashedContent(name: string, attributes: seq<Attribute>, sealed: bool, rest: string, docEmpty: bool)
    ensures ParseContent(name, true, attributes, sealed, rest, docEmpty)
            == OneNode(Element(name, attributes, []), if sealed then Sealed else Close, None, rest)
  {
  }

  /** A closing tag ends the list it is met in, whatever the nodes before it. */
  lemma ClosingTag(gap: string, inner: string, name: string, tail: string, rest: string, nodes: seq<Node>,
                   docEmpty: bool, top: bool)
    requires IsGap(gap) && IsGap(inner) && IsName(name) && IsGap(tail)
    ensures ParseList(ClosingText(gap, inner, name, tail) + rest, nodes, docEmpty, top) == Closed(nodes, name, rest)
  {
    ClosingElement(gap, inner, name, tail, rest, docEmpty);
    hide ParseNode, IsName, IsGap;
    ClosingNonempty(gap, inner, name, tail, rest);
  }

  lemma ClosingNonempty(gap: string, inner: string, name: string, tail: string, rest: string)
    ensures |ClosingText(gap, inner, name, tail) + rest| > 2
    ensures gap == "" ==> Delimits(ClosingText(gap, inner, name, tail) + rest)
  {
  }

  lemma LeafParts(gap: string, kind: LeafKind, raw: string, rest: string)
    ensures gap + LeafText(kind, raw) + rest == gap + (kind.Header() + (raw + (kind.EndTag() + rest)))
  {
    Reassociate(raw, kind.EndTag(), rest);
    Reassociate(kind.Header(), raw + kind.EndTag(), rest);
    Reassociate(gap, kind.Header() + (raw + kind.EndTag()), rest);
  }

  /** The kind of a leaf is recognised from its first characters. */
  lemma HeaderRecognised(kind: LeafKind, raw: string, rest: string)
    requires WellWrittenLeaf(kind, raw)
    ensures LeafAt(kind.Header() + (raw + (kind.EndTag() + rest))) == Some(kind)
  {
    hide Contains;
    var body := raw + (kind.EndTag() + rest);
    var t := kind.Header() + body;
    assert t[1] == kind.Header()[1];
    assert kind.Header() <= t;
    if kind.CDataLeaf? {
      assert t[2] == '[';
    }
    if kind.UnknownLeaf? {
      PrefixWithin("--", raw, '>', rest);
      PrefixWithin("[CDATA[", raw, '>', rest);
      PrefixOfSum("<!", "--", body);
      PrefixOfSum("<!", "[CDATA[", body);
      assert "<!--" == "<!" + "--" && "<![CDATA[" == "<!" + "[CDATA[";
    }
  }

  lemma LeafBodyRead(kind: LeafKind, raw: string, rest: string)
    requires WellWrittenLeaf(kind, raw)
    ensures ParseLeaf(raw + (kind.EndTag() + rest), kind)
            == OneNode(LeafMeant(kind, Value(NEWLINES, raw)), Open, None, rest)
  {
    hide Value, ParseText, Contains;
    if kind.UnknownLeaf? {
      FreeOfSingle(raw, '>');
    }
    TextRoundTrip(raw, kind.EndTag(), rest);
    Reassociate(raw, kind.EndTag(), rest);
  }

  lemma LeafRead(gap: string, kind: LeafKind, raw: string, rest: string, docEmpty: bool)
    requires IsGap(gap) && WellWrittenLeaf(kind, raw)
    ensures ParseNode(gap + LeafText(kind, raw) + rest, docEmpty)
            == OneNode(LeafMeant(kind, Value(NEWLINES, raw)), Open, None, rest)
  {
    hide ParseNode, ParseLeaf, LeafAt, Value, IsGap, WellWrittenLeaf;
    LeafParts(gap, kind, raw, rest);
    HeaderRecognised(kind, raw, rest);
    LeafMarkup(gap, kind, raw + (kind.EndTag() + rest), docEmpty);
    LeafBodyRead(kind, raw, rest);
  }

  /** Behind its leading whitespace text does not look like markup. */
  lemma {:induction false} TextStarts(raw: string, rest: string)
    requires '<' !in raw && !IsGap(raw)
    ensures var t := SkipWhiteSpace(raw + rest); t != "" && t[0] != '<'
  {
    var c, more := raw[0], raw[1..];
    assert c in raw && (raw + rest)[0] == c && (raw + rest)[1..] == more + rest;
    if IsWhiteSpace(c) {
      assert raw == [c] + more;
      assert forall x :: x in more ==> x in raw;
      TextStarts(more, rest);
    } else {
      SkipNothing(raw + rest);
    }
  }

  lemma TextRead(raw: string, rest: string, docEmpty: bool)
    requires '<' !in raw && !IsGap(raw) && rest != ""
    ensures ParseNode(raw + ("<" + rest), docEmpty) == OneNode(Text(Value(TEXT, raw), false), Open, None, "<" + rest)
  {
    hide SkipWhiteSpace, ParseNode, ParseText, Value, LeafAt, IsGap;
    FreeOfSingle(raw, '<');
    TextRoundTrip(raw, "<", rest);
    Reassociate(raw, "<", rest);
    TextStarts(raw, "<" + rest);
    NotMarkup(SkipWhiteSpace(raw + ("<" + rest)));
    PlainMarkup(raw + ("<" + rest), raw, rest, docEmpty);
  }

  // ----- trees -----

  function ClosingOf(w: Written): Closing { if w.WrittenElement? && w.content.Empty? then Sealed else Open }

  function EndTagOf(w: Written): Option<string> {
    if w.WrittenElement? && w.content.Children? then Some(w.name) else None
  }

  /** Text must be followed by markup that is not the last character. */
  predicate Delimits(rest: string) { |rest| > 1 && rest[0] == '<' }

  /**
   What is written is read as what it means, with what follows left for the next
   node; the closing tag of an element is the one its children met.
   */
  lemma {:induction false} NodeRead(w: Written, rest: string, docEmpty: bool)
    requires WellWritten(w, docEmpty) && (w.WrittenText? ==> Delimits(rest))
    ensures ParseNode(TextOf(w) + rest, docEmpty) == OneNode(Meant(w), ClosingOf(w), EndTagOf(w), rest)
    decreases w, 1
  {
    hide ParseNode, ParseContent, LeafText, WellWrittenLeaf, IsGap, WellWrittenContent, ContentText, Value;
    match w {
      case WrittenElement(gap, inner, name, attributes, tail, content) =>
        var after := AfterTag(name, content);
        ElementGoesOn(w, rest);
        ElementIsTag(gap, inner, name, attributes, tail, content.Empty?, after + rest, docEmpty);
        ContentRead(name, AttributesMeant(attributes), content, rest, docEmpty);
      case WrittenLeaf(gap, kind, raw) =>
        LeafRead(gap, kind, raw, rest, docEmpty);
      case WrittenText(raw) =>
        assert rest == "<" + rest[1..];
        TextRead(raw, rest[1..], docEmpty);
    }
  }

  /** From behind the opening tag on. */
  function AfterTag(name: string, content: Content): string {
    match content
    case Empty => ""
    case Children(children, gap, inner, tail) => ListText(children) + ClosingText(gap, inner, name, tail)
  }

  lemma ElementGoesOn(w: Written, rest: string)
    requires w.WrittenElement?
    ensures TextOf(w) + rest
            == w.gap + ("<" + (w.inner + (w.name + (AttributesText(w.attributes)
                 + (w.tail + (TagEnd(w.content.Empty?) + (AfterTag(w.name, w.content) + rest)))))))
  {
    hide AttributesText, ListText, ClosingText;
    var end, after, attributes := TagEnd(w.content.Empty?), AfterTag(w.name, w.content), AttributesText(w.attributes);
    var c := end + after;
    assert ContentText(w.name, w.content) == c;
    Reassociate(end, after, rest);
    Reassociate(w.tail, c, rest);
    Reassociate(attributes, w.tail + c, rest);
    Reassociate(w.name, attributes + (w.tail + c), rest);
    Reassociate(w.inner, w.name + (attributes + (w.tail + c)), rest);
    Reassociate("<", w.inner + (w.name + (attributes + (w.tail + c))), rest);
    Reassociate(w.gap, "<" + (w.inner + (w.name + (attributes + (w.tail + c)))), rest);
  }

  lemma {:induction false} ContentRead(name: string, attributes: seq<Attribute>, content: Content, rest: string,
                                       docEmpty: bool)
    requires IsName(name) && WellWrittenContent(content, docEmpty)
    ensures ParseContent(name, false, attributes, content.Empty?, AfterTag(name, content) + rest, docEmpty)
            == OneNode(Element(name, attributes, if content.Empty? then [] else AllMeant(content.children)),
                       if content.Empty? then Sealed else Open,
                       if content.Empty? then None else Some(name), rest)
    decreases content, 0
  {
    hide IsGap, IsName, ParseList, ListText, ClosingText, AllMeant, WellWrittenList;
    match content {
      case Empty =>
        assert "" + rest == rest;
      case Children(children, gap, inner, tail) =>
        var close := ClosingText(gap, inner, name, tail) + rest;
        Reassociate(ListText(children), ClosingText(gap, inner, name, tail), rest);
        ClosingNonempty(gap, inner, name, tail, rest);
        ListRead(children, [], close, docEmpty, false);
        assert [] + AllMeant(children) == AllMeant(children);
        ClosingTag(gap, inner, name, tail, rest, AllMeant(children), docEmpty, false);
    }
  }

  /** Siblings are read in order, and reading goes on behind them. */
  lemma {:induction false} ListRead(ws: seq<Written>, done: seq<Node>, rest: string, docEmpty: bool, top: bool)
    requires WellWrittenList(ws, docEmpty, top) && (EndsInText(ws) ==> Delimits(rest))
    ensures ParseList(ListText(ws) + rest, done, docEmpty, top)
            == ParseList(rest, done + AllMeant(ws), docEmpty && !(top && ws != []), top)
    decreases ws, 2
  {
    hide ParseList, ParseNode, TextOf, WellWritten, Meant;
    if ws == [] {
      assert ListText(ws) + rest == rest && done + AllMeant(ws) == done;
    } else {
      var w, more := ws[0], ListText(ws[1..]) + rest;
      Reassociate(TextOf(w), ListText(ws[1..]), rest);
      RestIsWell(ws, docEmpty, top);
      TextIsDelimited(ws, rest, docEmpty, top);
      NodeRead(w, more, docEmpty);
      WellPlaced(w, docEmpty);
      OneMore(w, more, done, docEmpty, top);
      Reassociate(done, [Meant(w)], AllMeant(ws[1..]));
      ListRead(ws[1..], done + [Meant(w)], rest, docEmpty && !top, top);
    }
  }

  lemma RestIsWell(ws: seq<Written>, docEmpty: bool, top: bool)
    requires ws != [] && WellWrittenList(ws, docEmpty, top)
    ensures WellWritten(ws[0], docEmpty) && WellWrittenList(ws[1..], docEmpty && !top, top)
    ensures EndsInText(ws[1..]) ==> EndsInText(ws)
  {
    hide WellWritten;
    var rest := ws[1..];
    assert forall i :: 0 <= i < |rest| ==> rest[i] == ws[i + 1];
    assert WellWritten(ws[0], docEmpty && (!top || 0 == 0));
    forall i | 0 <= i < |rest|
      ensures WellWritten(rest[i], docEmpty && !top && (!top || i == 0))
    {
      assert WellWritten(ws[i + 1], docEmpty && (!top || i + 1 == 0));
    }
  }

  lemma WellPlaced(w: Written, docEmpty: bool)
    requires WellWritten(w, docEmpty)
    ensures Meant(w).Declaration? ==> docEmpty
    ensures Meant(w).Element? <==> w.WrittenElement?
    ensures w.WrittenElement? ==> Meant(w).name == w.name
  {
    hide Value;
  }

  lemma OneMore(w: Written, rest: string, done: seq<Node>, docEmpty: bool, top: bool)
    requires ParseNode(TextOf(w) + rest, docEmpty) == OneNode(Meant(w), ClosingOf(w), EndTagOf(w), rest)
    requires Meant(w).Declaration? ==> docEmpty
    requires (Meant(w).Element? <==> w.WrittenElement?) && (w.WrittenElement? ==> Meant(w).name == w.name)
    ensures ParseList(TextOf(w) + rest, done, docEmpty, top)
            == ParseList(rest, done + [Meant(w)], docEmpty && !top, top)
  {
    EmptyIsNoNode(docEmpty);
    hide ParseNode, TextOf, Meant;
  }

  lemma EmptyIsNoNode(docEmpty: bool)
    ensures ParseNode("", docEmpty) == NoNode
  {
    NoWords();
  }

  /** Behind text comes markup without a gap. */
  lemma TextIsDelimited(ws: seq<Written>, rest: string, docEmpty: bool, top: bool)
    requires ws != [] && WellWrittenList(ws, docEmpty, top) && (EndsInText(ws) ==> Delimits(rest))
    ensures ws[0].WrittenText? ==> Delimits(ListText(ws[1..]) + rest)
  {
    hide TextOf, WellWritten;
    if ws[0].WrittenText? {
      if |ws| == 1 {
        assert ListText(ws[1..]) + rest == rest;
      } else {
        assert ws[1 - 1].WrittenText?;
        MarkupStarts(ws[1]);
        assert ws[1..][0] == ws[1];
        assert (ListText(ws[1..]) + rest)[0] == TextOf(ws[1])[0];
      }
    }
  }

  lemma MarkupStarts(w: Written)
    requires !w.WrittenText? && w.gap == ""
    ensures |TextOf(w)| > 1 && TextOf(w)[0] == '<'
  {
  }

  // ----- documents -----

  /** What stands in front of the nodes. */
  function Lead(lead: string, marked: bool): string { lead + if marked then BOM else "" }

  lemma MarkIsNoGap(rest: string)
    ensures SkipWhiteSpace(BOM + rest) == BOM + rest && (rest != "" && rest[0] == '<' ==> !(BOM <= rest))
  {
    SkipNothing(BOM + rest);
  }

  /** Without a byte order mark a document starts with neither whitespace nor such a mark. */
  predicate StartsDocument(s: string, marked: bool) {
    s != "" && (marked || (!IsGap(s[..1]) && !(BOM <= s)))
  }

  lemma FirstIsNoGap(s: string)
    requires s != "" && !IsGap(s[..1])
    ensures SkipWhiteSpace(s) == s
  {
    assert forall c :: c in s[..1] ==> c == s[0];
    SkipNothing(s);
  }

  /** Behind whitespace and a byte order mark the list of nodes is read. */
  lemma DocumentIsList(lead: string, marked: bool, s: string)
    requires IsGap(lead) && StartsDocument(s, marked)
    ensures ParseDocument(Lead(lead, marked) + s)
            == match ParseList(s, [], true, true)
               case Failed(e) => DocumentFailed(e)
               case AtEnd(nodes) => Document(nodes)
               case Closed(nodes, _, _) => Document(nodes)
  {
    hide SkipWhiteSpace, ParseList, IsGap;
    if marked {
      Reassociate(lead, BOM, s);
      MarkIsNoGap(s);
      GapSkipped(lead, BOM + s);
      assert (BOM + s)[3..] == s;
    } else {
      assert Lead(lead, marked) == lead;
      GapSkipped(lead, s);
      FirstIsNoGap(s);
    }
  }

  /** Markup without a gap can start a document. */
  lemma MarkupStartsDocument(lead: string, gap: string, s: string)
    requires IsGap(lead) && IsGap(gap) && s != "" && s[0] == '<'
    ensures IsGap(lead + gap) && StartsDocument(s, false)
    ensures Lead(lead, false) + (gap + s) == Lead(lead + gap, false) + s
  {
    assert s[0] in s[..1];
    assert lead + "" == lead && (lead + gap) + "" == lead + gap;
    Reassociate(lead, gap, s);
  }

  /** The same nodes without the whitespace in front of the first. */
  function WithoutGap(ws: seq<Written>): seq<Written>
    requires ws != [] && !ws[0].WrittenText?
  {
    [ws[0].(gap := "")] + ws[1..]
  }

  lemma GapLeftOut(ws: seq<Written>, docEmpty: bool, rest: string)
    requires ws != [] && !ws[0].WrittenText? && WellWrittenList(ws, docEmpty, true)
    ensures ListText(ws) + rest == ws[0].gap + (ListText(WithoutGap(ws)) + rest) && IsGap(ws[0].gap)
    ensures WellWrittenList(WithoutGap(ws), docEmpty, true) && AllMeant(WithoutGap(ws)) == AllMeant(ws)
    ensures EndsInText(WithoutGap(ws)) <==> EndsInText(ws)
    ensures var s := ListText(WithoutGap(ws)) + rest; s != "" && s[0] == '<'
  {
    hide WellWritten, TextOf, Meant;
    var w, v := ws[0], ws[0].(gap := "");
    var us := WithoutGap(ws);
    assert us[1..] == ws[1..];
    assert WellWritten(ws[0], docEmpty && (!true || 0 == 0));
    GapOfOne(w, docEmpty);
    MarkupStarts(v);
    Reassociate(w.gap, TextOf(v), ListText(ws[1..]));
    Reassociate(w.gap, TextOf(v) + ListText(ws[1..]), rest);
    assert ListText(us) == TextOf(v) + ListText(us[1..]);
    assert (ListText(us) + rest)[0] == TextOf(v)[0];
    WithoutGapIsWell(ws, docEmpty);
  }

  lemma WithoutGapIsWell(ws: seq<Written>, docEmpty: bool)
    requires ws != [] && !ws[0].WrittenText? && WellWrittenList(ws, docEmpty, true)
    requires WellWritten(ws[0].(gap := ""), docEmpty)
    ensures WellWrittenList(WithoutGap(ws), docEmpty, true)
    ensures EndsInText(WithoutGap(ws)) <==> EndsInText(ws)
  {
    hide WellWritten;
    var us := WithoutGap(ws);
    forall i | 0 <= i < |us|
      ensures WellWritten(us[i], docEmpty && (!true || i == 0))
    {
      assert i > 0 ==> us[i] == ws[i] && WellWritten(ws[i], docEmpty && (!true || i == 0));
    }
    forall i | 0 < i < |us| && us[i - 1].WrittenText?
      ensures !us[i].WrittenText? && us[i].gap == ""
    {
      assert us[i] == ws[i] && ws[i - 1].WrittenText?;
    }
  }

  lemma GapOfOne(w: Written, docEmpty: bool)
    requires !w.WrittenText? && WellWritten(w, docEmpty)
    ensures IsGap(w.gap) && WellWritten(w.(gap := ""), docEmpty) && Meant(w.(gap := "")) == Meant(w)
    ensures TextOf(w) == w.gap + TextOf(w.(gap := ""))
  {
    hide Value, IsName, WellWrittenAttributes, WellWrittenContent, ContentText, AttributesText, WellWrittenLeaf;
    assert TextOf(w.(gap := "")) == TextOf(w)[|w.gap|..];
  }

  /** Nodes, and what follows them, as a document: markup may have whitespace in front of it. */
  predicate Opens(ws: seq<Written>, rest: string, marked: bool) {
    (ws != [] && !ws[0].WrittenText?) || StartsDocument(ListText(ws) + rest, marked)
  }

  /** Whatever the nodes lead to, with anything in front that may stand there. */
  lemma NodesThen(lead: string, marked: bool, ws: seq<Written>, rest: string)
    requires IsGap(lead) && WellWrittenList(ws, true, true) && Opens(ws, rest, marked)
    requires EndsInText(ws) ==> Delimits(rest)
    ensures ParseDocument(Lead(lead, marked) + (ListText(ws) + rest))
            == match ParseList(rest, AllMeant(ws), ws == [], true)
               case Failed(e) => DocumentFailed(e)
               case AtEnd(nodes) => Document(nodes)
               case Closed(nodes, _, _) => Document(nodes)
  {
    hide ParseList, ParseDocument, ListText, AllMeant, WellWrittenList, IsGap, StartsDocument;
    ListRead(ws, [], rest, true, true);
    assert [] + AllMeant(ws) == AllMeant(ws);
    if StartsDocument(ListText(ws) + rest, marked) {
      DocumentIsList(lead, marked, ListText(ws) + rest);
    } else {
      var us := WithoutGap(ws);
      GapLeftOut(ws, true, rest);
      MarkedStarts(ws[0].gap + (ListText(us) + rest));
      MarkupStartsDocument(lead, ws[0].gap, ListText(us) + rest);
      DocumentIsList(lead + ws[0].gap, false, ListText(us) + rest);
      ListRead(us, [], rest, true, true);
    }
  }

  lemma MarkedStarts(s: string)
    ensures StartsDocument(s, true) <==> s != ""
  {
  }

  lemma GapEndsList(gap: string, nodes: seq<Node>, docEmpty: bool, top: bool)
    requires IsGap(gap)
    ensures ParseList(gap, nodes, docEmpty, top) == AtEnd(nodes)
  {
    hide SkipWhiteSpace;
    GapSkipped(gap, "");
    assert gap + "" == gap;
    NoWords();
    if gap != "" {
      assert ParseNode(gap, docEmpty) == NoNode;
    }
  }

  /** What is written as a document is read as what it means, whatever the layout. */
  lemma WrittenDocumentRead(lead: string, marked: bool, ws: seq<Written>, trail: string)
    requires IsGap(lead) && IsGap(trail)
    requires WellWrittenList(ws, true, true) && Opens(ws, trail, marked) && !EndsInText(ws)
    ensures ParseDocument(Lead(lead, marked) + (ListText(ws) + trail)) == Document(AllMeant(ws))
  {
    hide ParseList, ParseDocument, ListText, AllMeant, WellWrittenList, IsGap;
    NodesThen(lead, marked, ws, trail);
    GapEndsList(trail, AllMeant(ws), ws == [], true);
  }

  /** A closing tag outside every element ends the document; what follows is not even looked at. */
  lemma StrayClosingTagEndsDocument(lead: string, marked: bool, ws: seq<Written>, gap: string, inner: string,
                                    name: string, tail: string, garbage: string)
    requires IsGap(lead) && IsGap(gap) && IsGap(inner) && IsName(name) && IsGap(tail)
    requires WellWrittenList(ws, true, true) && (EndsInText(ws) ==> gap == "")
    requires Opens(ws, ClosingText(gap, inner, name, tail) + garbage, marked)
    ensures ParseDocument(Lead(lead, marked) + (ListText(ws) + (ClosingText(gap, inner, name, tail) + garbage)))
            == Document(AllMeant(ws))
  {
    hide ParseList, ParseDocument, ListText, AllMeant, WellWrittenList, IsGap, IsName, ClosingText, Opens;
    ClosingNonempty(gap, inner, name, tail, garbage);
    NodesThen(lead, marked, ws, ClosingText(gap, inner, name, tail) + garbage);
    ClosingTag(gap, inner, name, tail, garbage, AllMeant(ws), ws == [], true);
  }

  /** Nothing but whitespace, or a byte order mark behind it and nothing more, is no document. */
  lemma NothingIsNoDocument(lead: string, marked: bool)
    requires IsGap(lead)
    ensures ParseDocument(Lead(lead, marked)) == DocumentFailed(EmptyDocument)
  {
    hide ParseList, SkipWhiteSpace, IsGap;
    GapSkipped(lead, "");
    NoWords();
    assert lead + "" == lead;
    if marked {
      GapSkipped(lead, BOM);
      MarkIsNoGap("");
      assert BOM + "" == BOM && BOM[3..] == "";
    }
  }

  // ----- what is refused -----

  /** From here on no node can be read, in a document without nodes so far or in one with some. */
  predicate Broken(s: string, e: Error, docEmpty: bool) {
    s != "" && ParseNode(s, docEmpty) == NodeFailed(e)
  }

  /** An error stands wherever it is met: behind any siblings, in an element however deep, in a document. */
  lemma BrokenInDocument(lead: string, marked: bool, ws: seq<Written>, s: string, e: Error)
    requires IsGap(lead) && Broken(s, e, ws == [])
    requires WellWrittenList(ws, true, true) && Opens(ws, s, marked) && (EndsInText(ws) ==> Delimits(s))
    ensures ParseDocument(Lead(lead, marked) + (ListText(ws) + s)) == DocumentFailed(e)
  {
    hide ParseNode, ParseDocument, ListText, AllMeant, WellWrittenList, IsGap, Opens;
    NodesThen(lead, marked, ws, s);
  }

  /** The text of an opening tag. */
  function OpeningText(gap: string, inner: string, name: string, attributes: seq<WrittenAttribute>, tail: string)
    : string
  {
    gap + ("<" + (inner + (name + (AttributesText(attributes) + (tail + ">")))))
  }

  lemma OpeningGoesOn(gap: string, inner: string, name: string, attributes: seq<WrittenAttribute>, tail: string,
                      rest: string)
    ensures OpeningText(gap, inner, name, attributes, tail) + rest
            == gap + ("<" + (inner + (name + (AttributesText(attributes) + (tail + (TagEnd(false) + rest))))))
  {
    hide AttributesText;
    var text := AttributesText(attributes);
    Reassociate(tail, ">", rest);
    Reassociate(text, tail + ">", rest);
    Reassociate(name, text + (tail + ">"), rest);
    Reassociate(inner, name + (text + (tail + ">")), rest);
    Reassociate("<", inner + (name + (text + (tail + ">"))), rest);
    Reassociate(gap, "<" + (inner + (name + (text + (tail + ">")))), rest);
  }

  lemma OpenedElement(gap: string, inner: string, name: string, attributes: seq<WrittenAttribute>, tail: string,
                      ws: seq<Written>, rest: string, docEmpty: bool)
    requires IsGap(gap) && IsGap(inner) && IsName(name) && WellWrittenAttributes(attributes) && IsGap(tail)
    requires WellWrittenList(ws, docEmpty, false) && (EndsInText(ws) ==> Delimits(rest)) && ListText(ws) + rest != ""
    ensures ParseNode(OpeningText(gap, inner, name, attributes, tail) + (ListText(ws) + rest), docEmpty)
            == ContentAt(name, AttributesMeant(attributes), ParseList(rest, AllMeant(ws), docEmpty, false))
  {
    hide ParseNode, ParseList, ListText, AllMeant, WellWrittenList, IsGap, IsName, WellWrittenAttributes,
      AttributesMeant, OpeningText;
    OpeningGoesOn(gap, inner, name, attributes, tail, ListText(ws) + rest);
    ElementIsTag(gap, inner, name, attributes, tail, false, ListText(ws) + rest, docEmpty);
    ListRead(ws, [], rest, docEmpty, false);
    assert [] + AllMeant(ws) == AllMeant(ws);
  }

  lemma BrokenInElement(gap: string, inner: string, name: string, attributes: seq<WrittenAttribute>, tail: string,
                        ws: seq<Written>, s: string, e: Error, docEmpty: bool)
    requires IsGap(gap) && IsGap(inner) && IsName(name) && WellWrittenAttributes(attributes) && IsGap(tail)
    requires WellWrittenList(ws, docEmpty, false) && (EndsInText(ws) ==> Delimits(s)) && Broken(s, e, docEmpty)
    ensures Broken(OpeningText(gap, inner, name, attributes, tail) + (ListText(ws) + s), e, docEmpty)
  {
    hide ParseNode, ListText, AllMeant, WellWrittenList, IsGap, IsName, WellWrittenAttributes, AttributesMeant;
    OpeningGoesOn(gap, inner, name, attributes, tail, ListText(ws) + s);
    OpenedElement(gap, inner, name, attributes, tail, ws, s, docEmpty);
  }

  /** An element without closing tag. */
  lemma UnclosedElement(gap: string, inner: string, name: string, attributes: seq<WrittenAttribute>, tail: string,
                        ws: seq<Written>, trail: string, docEmpty: bool)
    requires IsGap(gap) && IsGap(inner) && IsName(name) && WellWrittenAttributes(attributes) && IsGap(tail)
    requires WellWrittenList(ws, docEmpty, false) && !EndsInText(ws) && IsGap(trail) && ListText(ws) + trail != ""
    ensures Broken(OpeningText(gap, inner, name, attributes, tail) + (ListText(ws) + trail), Parsing, docEmpty)
  {
    hide ParseNode, ListText, AllMeant, WellWrittenList, IsGap, IsName, WellWrittenAttributes, AttributesMeant;
    OpeningGoesOn(gap, inner, name, attributes, tail, ListText(ws) + trail);
    OpenedElement(gap, inner, name, attributes, tail, ws, trail, docEmpty);
    GapEndsList(trail, AllMeant(ws), docEmpty, false);
  }

  /** An opening tag at the very end is taken for an element whose closing tag is another's. */
  lemma UnclosedAtEnd(gap: string, inner: string, name: string, attributes: seq<WrittenAttribute>, tail: string,
                      done: seq<Node>, docEmpty: bool, top: bool)
    requires IsGap(gap) && IsGap(inner) && IsName(name) && WellWrittenAttributes(attributes) && IsGap(tail)
    ensures ParseList(OpeningText(gap, inner, name, attributes, tail), done, docEmpty, top)
            == Failed(MismatchedElement)
  {
    hide ParseNode, IsGap, IsName, WellWrittenAttributes, AttributesMeant, AttributesText;
    var s := OpeningText(gap, inner, name, attributes, tail);
    OpeningGoesOn(gap, inner, name, attributes, tail, "");
    assert s + "" == s;
    ElementIsTag(gap, inner, name, attributes, tail, false, "", docEmpty);
  }

  /** An element is accepted or refused by the name of the closing tag its children meet. */
  lemma ClosingNameDecides(gap: string, inner: string, name: string, attributes: seq<WrittenAttribute>, tail: string,
                           ws: seq<Written>, gap2: string, inner2: string, other: string, tail2: string,
                           rest: string, done: seq<Node>, docEmpty: bool, top: bool)
    requires IsGap(gap) && IsGap(inner) && IsName(name) && WellWrittenAttributes(attributes) && IsGap(tail)
    requires WellWrittenList(ws, docEmpty, false) && (EndsInText(ws) ==> gap2 == "")
    requires IsGap(gap2) && IsGap(inner2) && IsName(other) && IsGap(tail2)
    ensures var close := ClosingText(gap2, inner2, other, tail2) + rest;
            ParseList(OpeningText(gap, inner, name, attributes, tail) + (ListText(ws) + close), done, docEmpty, top)
            == if other == name then
                 ParseList(rest, done + [Element(name, AttributesMeant(attributes), AllMeant(ws))], docEmpty && !top,
                           top)
               else Failed(MismatchedElement)
  {
    hide ParseNode, ParseList, ListText, AllMeant, WellWrittenList, IsGap, IsName, WellWrittenAttributes,
      AttributesMeant, ClosingText, OpeningText;
    var close := ClosingText(gap2, inner2, other, tail2) + rest;
    var s := OpeningText(gap, inner, name, attributes, tail) + (ListText(ws) + close);
    ClosingNonempty(gap2, inner2, other, tail2, rest);
    OpenedElement(gap, inner, name, attributes, tail, ws, close, docEmpty);
    ClosingTag(gap2, inner2, other, tail2, rest, AllMeant(ws), docEmpty, false);
    ElementInList(s, Element(name, AttributesMeant(attributes), AllMeant(ws)), other, rest, done, docEmpty, top);
  }

  lemma ElementInList(s: string, n: Node, other: string, rest: string, done: seq<Node>, docEmpty: bool, top: bool)
    requires s != "" && n.Element? && ParseNode(s, docEmpty) == OneNode(n, Open, Some(other), rest)
    ensures ParseList(s, done, docEmpty, top)
            == if other == n.name then ParseList(rest, done + [n], docEmpty && !top, top) else Failed(MismatchedElement)
  {
    hide ParseNode;
  }

  // ----- markup that breaks off -----

  /** How a leaf starts, and the error if it does not end. */
  function LeafStart(kind: LeafKind): string {
    match kind
    case DeclarationLeaf => "<?"
    case CommentLeaf => "<!--"
    case CDataLeaf => "<![CDATA["
    case UnknownLeaf => "<!"
  }

  function LeafError(kind: LeafKind): Error {
    match kind
    case DeclarationLeaf => ParsingDeclaration
    case CommentLeaf => ParsingComment
    case CDataLeaf => ParsingCData
    case UnknownLeaf => ParsingUnknown
  }

  lemma {:induction false} NoTagToFind(s: string, tag: string, k: nat)
    requires !Contains(s, tag) && k <= |s|
    ensures FindTag(s, tag, k) == |s|
    decreases |s| - k
  {
    if k < |s| {
      NoTagToFind(s, tag, k + 1);
    }
  }

  /** A declaration, comment, CDATA or unknown that does not end. */
  lemma UnendedLeaf(gap: string, kind: LeafKind, raw: string, docEmpty: bool)
    requires IsGap(gap) && !Contains(raw, kind.EndTag())
    requires kind == UnknownLeaf ==> !("--" <= raw) && !("[CDATA[" <= raw)
    ensures Broken(gap + (LeafStart(kind) + raw), LeafError(kind), docEmpty)
  {
    hide ParseNode, LeafAt, IsGap, Contains;
    StartRecognised(kind, raw);
    LeafMarkup(gap, kind, raw, docEmpty);
    NoTagToFind(raw, kind.EndTag(), 0);
    assert LeafStart(kind) == kind.Header();
  }

  lemma LeafMarkup(gap: string, kind: LeafKind, body: string, docEmpty: bool)
    requires IsGap(gap) && LeafAt(kind.Header() + body) == Some(kind)
    ensures ParseNode(gap + (kind.Header() + body), docEmpty) == ParseLeaf(body, kind)
  {
    var t := kind.Header() + body;
    assert t[0] == '<' && t[|kind.Header()|..] == body;
    MarkSkipped(gap, t);
    hide ParseLeaf, SkipWhiteSpace, LeafAt, IsGap;
  }

  lemma StartRecognised(kind: LeafKind, raw: string)
    requires kind == UnknownLeaf ==> !("--" <= raw) && !("[CDATA[" <= raw)
    ensures LeafAt(kind.Header() + raw) == Some(kind)
  {
    var t := kind.Header() + raw;
    assert t[1] == kind.Header()[1] && kind.Header() <= t;
    if kind.CDataLeaf? {
      assert t[2] == '[';
    }
    if kind.UnknownLeaf? {
      PrefixOfSum("<!", "--", raw);
      PrefixOfSum("<!", "[CDATA[", raw);
      assert "<!--" == "<!" + "--" && "<![CDATA[" == "<!" + "[CDATA[";
    }
  }

  /** Text that goes on to the end, or ends in a single '<'. */
  lemma UnendedText(raw: string, docEmpty: bool)
    requires '<' !in raw && !IsGap(raw)
    ensures Broken(raw, ParsingText, docEmpty) && Broken(raw + "<", Parsing, docEmpty)
  {
    hide SkipWhiteSpace, ParseNode, Value, IsGap;
    TextMarkup(raw, "", docEmpty);
    TextMarkup(raw, "<", docEmpty);
    assert raw + "" == raw;
    FreeOfSingle(raw, '<');
    NoTagToFind(raw, "<", 0);
    TextRoundTrip(raw, "<", "");
    assert raw + "<" + "" == raw + "<";
    EmptyIsGap();
  }

  lemma EmptyIsGap()
    ensures IsGap("")
  {
  }

  lemma TextMarkup(raw: string, rest: string, docEmpty: bool)
    requires '<' !in raw && !IsGap(raw)
    ensures ParseNode(raw + rest, docEmpty) == TextAt(raw + rest)
  {
    hide SkipWhiteSpace, LeafAt, TextAt, IsGap;
    TextStarts(raw, rest);
    NotMarkup(SkipWhiteSpace(raw + rest));
  }

  /** No name behind '<' or behind the slash of a closing tag. */
  lemma NamelessTag(gap: string, inner: string, slash: bool, s: string, docEmpty: bool)
    requires IsGap(gap) && IsGap(inner) && (s == "" || !IsNameStartChar(s[0]))
    requires !slash ==> s == "" || (!IsWhiteSpace(s[0]) && s[0] !in "/?!")
    ensures Broken(gap + ("<" + (inner + ((if slash then "/" else "") + s))), Parsing, docEmpty)
  {
    hide SkipWhiteSpace, ParseNode, IsGap;
    var body := (if slash then "/" else "") + s;
    var t := inner + body;
    if body == "" {
      GapSkipped(inner, "");
      NoWords();
      assert t == inner + "" == inner;
      GapIsNoMark(inner);
    } else {
      MarkSkipped(inner, body);
      GapIsNoLeaf(inner, body);
      assert slash ==> body[1..] == s;
      assert !slash ==> body == s;
    }
    ElementMarkup(gap, t, docEmpty);
  }

  lemma GapIsNoMark(g: string)
    requires IsGap(g)
    ensures g == "" || (g[0] != '?' && g[0] != '!')
  {
    if g != "" {
      assert g[0] in g;
    }
  }

  /** An opening tag that breaks off with s behind some of its attributes. */
  lemma BrokenTag(gap: string, inner: string, name: string, attributes: seq<WrittenAttribute>, s: string, e: Error,
                  docEmpty: bool)
    requires IsGap(gap) && IsGap(inner) && IsName(name) && WellWrittenAttributes(attributes)
    requires s == "" || !IsNameChar(s[0]) || attributes != []
    requires ParseAttributes(s, AttributesMeant(attributes)) == TagFailed(e)
    ensures Broken(gap + ("<" + (inner + (name + (AttributesText(attributes) + s)))), e, docEmpty)
  {
    hide ParseName, ParseNode, ParseAttributes, SkipWhiteSpace, IsGap, AttributesMeant;
    var after := AttributesText(attributes) + s;
    if attributes == [] {
      assert after == s;
    } else {
      FirstGap(attributes, s);
    }
    assert forall a :: a in attributes ==> WellWrittenAttribute(a);
    AttributesRead([], attributes, s);
    assert [] + AttributesMeant(attributes) == AttributesMeant(attributes);
    NameRoundTrip(name, after);
    NameStarts(name, after);
    MarkSkipped(inner, name + after);
    GapIsNoLeaf(inner, name + after);
    ElementMarkup(gap, inner + (name + after), docEmpty);
  }

  /** A tag that neither ends nor goes on with an attribute. */
  lemma UnendedTag(gap: string, s: string, done: seq<Attribute>)
    requires IsGap(gap)
    requires s == "" || !(IsWhiteSpace(s[0]) || IsNameStartChar(s[0]) || s[0] == '>' || "/>" <= s)
    ensures ParseAttributes(gap + s, done) == TagFailed(ParsingElement)
  {
    hide SkipWhiteSpace, IsGap;
    if s == "" {
      GapSkipped(gap, "");
      NoWords();
    } else {
      MarkSkipped(gap, s);
    }
  }

  /** An attribute without '='. */
  lemma NoEqualSign(before: string, name: string, gap: string, s: string, done: seq<Attribute>)
    requires IsGap(before) && IsName(name) && IsGap(gap)
    requires s == "" || (!IsWhiteSpace(s[0]) && !IsNameChar(s[0]) && s[0] != '=')
    ensures ParseAttributes(before + (name + (gap + s)), done) == TagFailed(ParsingAttribute)
  {
    hide SkipWhiteSpace, ParseName, IsGap;
    NameStarts(name, gap + s);
    MarkSkipped(before, name + (gap + s));
    GapEndsName(gap, s);
    NameRoundTrip(name, gap + s);
    if s == "" {
      GapSkipped(gap, "");
      NoWords();
    } else {
      MarkSkipped(gap, s);
    }
  }

  /** An attribute whose value is not quoted, or whose quotes do not end. */
  lemma NoQuotedValue(a: WrittenAttribute, s: string, done: seq<Attribute>)
    requires IsGap(a.before) && IsName(a.name) && IsGap(a.beforeEqual) && IsGap(a.afterEqual)
    requires s == "" || !IsWhiteSpace(s[0])
    requires s == "" || (s[0] != '"' && s[0] != '\'') || s[0] !in s[1..]
    ensures ParseAttributes(a.before + (a.name + (a.beforeEqual + ("=" + (a.afterEqual + s)))), done)
            == TagFailed(ParsingAttribute)
  {
    hide SkipWhiteSpace, ParseName, IsGap;
    var t := "=" + (a.afterEqual + s);
    NameStarts(a.name, a.beforeEqual + t);
    MarkSkipped(a.before, a.name + (a.beforeEqual + t));
    GapEndsName(a.beforeEqual, t);
    NameRoundTrip(a.name, a.beforeEqual + t);
    MarkSkipped(a.beforeEqual, t);
    assert t[1..] == a.afterEqual + s;
    if s == "" {
      GapSkipped(a.afterEqual, "");
      NoWords();
    } else {
      MarkSkipped(a.afterEqual, s);
      if s[0] !in s[1..] {
        FreeOfSingle(s[1..], s[0]);
        NoTagToFind(s[1..], [s[0]], 0);
      }
    }
  }

  /** A repeated attribute name, wherever the first one stands. */
  lemma DuplicateAttribute(attributes: seq<WrittenAttribute>, a: WrittenAttribute, rest: string)
    requires WellWrittenAttribute(a) && exists b :: b in attributes && b.name == a.name
    ensures ParseAttributes(AttributeText(a) + rest, AttributesMeant(attributes)) == TagFailed(ParsingAttribute)
  {
    hide ParseAttributes, HasAttribute, AttributesMeant, WellWrittenAttribute;
    var b :| b in attributes && b.name == a.name;
    MeantNames(attributes, b);
    OneMoreAttribute(AttributesMeant(attributes), a, rest);
  }

  lemma {:induction false} MeantNames(attributes: seq<WrittenAttribute>, b: WrittenAttribute)
    requires b in attributes
    ensures HasAttribute(AttributesMeant(attributes), b.name)
  {
    hide Value;
    var ms := AttributesMeant(attributes);
    if b == attributes[0] {
      assert ms[0].name == b.name && ms[0] in ms;
    } else {
      MeantNames(attributes[1..], b);
      var a :| a in AttributesMeant(attributes[1..]) && a.name == b.name;
      assert a in ms;
    }
  }

  lemma LateDeclaration(gap: string, raw: string, rest: string, done: seq<Node>, top: bool)
    requires IsGap(gap) && !Contains(raw, "?>")
    ensures ParseList(gap + LeafText(DeclarationLeaf, raw) + rest, done, false, top) == Failed(ParsingDeclaration)
  {
    hide ParseNode, IsGap, Contains, Value;
    LeafRead(gap, DeclarationLeaf, raw, rest, false);
  }

  /** A declaration behind another node of the document. */
  lemma LateDeclarationRefused(lead: string, marked: bool, ws: seq<Written>, gap: string, raw: string, rest: string)
    requires IsGap(lead) && IsGap(gap) && !Contains(raw, "?>")
    requires ws != [] && WellWrittenList(ws, true, true) && (EndsInText(ws) ==> gap == "")
    requires Opens(ws, gap + LeafText(DeclarationLeaf, raw) + rest, marked)
    ensures ParseDocument(Lead(lead, marked) + (ListText(ws) + (gap + LeafText(DeclarationLeaf, raw) + rest)))
            == DocumentFailed(ParsingDeclaration)
  {
    hide ParseNode, ParseDocument, AllMeant, WellWrittenList, IsGap, Contains, Opens;
    var s := gap + LeafText(DeclarationLeaf, raw) + rest;
    assert |s| > 1 && (gap == "" ==> s[0] == '<');
    NodesThen(lead, marked, ws, s);
    LateDeclaration(gap, raw, rest, AllMeant(ws), true);
  }

  /** In an element it is refused all the same. */
  lemma NestedDeclarationRefused(gap: string, inner: string, name: string, attributes: seq<WrittenAttribute>,
                                 tail: string, ws: seq<Written>, gap2: string, raw: string, rest: string)
    requires IsGap(gap) && IsGap(inner) && IsName(name) && WellWrittenAttributes(attributes) && IsGap(tail)
    requires WellWrittenList(ws, false, false) && (EndsInText(ws) ==> gap2 == "")
    requires IsGap(gap2) && !Contains(raw, "?>")
    ensures Broken(OpeningText(gap, inner, name, attributes, tail)
                   + (ListText(ws) + (gap2 + LeafText(DeclarationLeaf, raw) + rest)), ParsingDeclaration, false)
  {
    hide ParseNode, AllMeant, WellWrittenList, IsGap, IsName, WellWrittenAttributes, AttributesMeant, Contains;
    var s := gap2 + LeafText(DeclarationLeaf, raw) + rest;
    assert |s| > 1 && (gap2 == "" ==> s[0] == '<');
    OpeningGoesOn(gap, inner, name, attributes, tail, ListText(ws) + s);
    OpenedElement(gap, inner, name, attributes, tail, ws, s, false);
    LateDeclaration(gap2, raw, rest, AllMeant(ws), false);
  }
}
