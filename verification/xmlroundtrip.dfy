/**
 Reading back what the printer of `native/mars/comm/tinyxml2.cc` writes: the
 compact printout of a document is one way of writing it.
 */
module XmlRoundTrip {

  import opened Options
  import opened Sequences
  import opened Strings
  import opened XmlText
  import opened XmlDocuments
  import opened XmlLexical
  import opened XmlWritten

  // ----- what can be printed and read back -----

  ghost predicate GoodAttributes(attributes: seq<Attribute>) {
    && (forall a :: a in attributes ==> IsName(a.name) && CleanText(a.value))
    && (forall i, j :: 0 <= i < j < |attributes| ==> attributes[i].name != attributes[j].name)
  }

  ghost predicate Printable(n: Node) {
    match n
    case Element(name, attributes, children) =>
      && IsName(name)
      && GoodAttributes(attributes)
      && PrintableList(children)
      && (forall c :: c in children ==> !c.Declaration?)
    case Text(value, cdata) =>
      CleanText(value) && if cdata then !Contains(value, "]]>") else SkipWhiteSpace(value) != ""
    case Comment(value) => CleanText(value) && !Contains(value, "-->")
    case Declaration(value) => CleanText(value) && !Contains(value, "?>")
    case Unknown(value) => CleanText(value) && '>' !in value && !("--" <= value) && !("[CDATA[" <= value)
  }

  /** Siblings: plain texts would run together if adjacent. */
  ghost predicate PrintableList(ns: seq<Node>) {
    && (forall n :: n in ns ==> Printable(n))
    && (forall i :: 0 < i < |ns| ==> !(PlainText(ns[i - 1]) && PlainText(ns[i])))
  }

  /**
   A document: a declaration comes first if at all, text does not come last, and
   one that comes first starts neither with whitespace nor with a byte order mark.
   */
  ghost predicate PrintableDocument(ns: seq<Node>) {
    && ns != [] && PrintableList(ns) && !PlainText(ns[|ns| - 1])
    && (PlainText(ns[0]) ==> StartsDocument(ns[0].value, false))
    && (forall i :: 0 < i < |ns| ==> !ns[i].Declaration?)
  }

  // ----- the printout as written XML -----

  function PlainAttributes(attributes: seq<Attribute>): seq<WrittenAttribute> {
    if attributes == [] then [] else
      [WrittenAttribute(" ", attributes[0].name, "", "", '"', Escape(attributes[0].value, false))]
      + PlainAttributes(attributes[1..])
  }

  function Plain(n: Node): Written
    decreases n, 1
  {
    match n
    case Element(name, attributes, children) =>
      WrittenElement("", "", name, PlainAttributes(attributes), "",
                     if children == [] then Empty else Children(PlainList(children), "", "", ""))
    case Text(value, cdata) => if cdata then WrittenLeaf("", CDataLeaf, value) else WrittenText(Escape(value, true))
    case Comment(value) => WrittenLeaf("", CommentLeaf, value)
    case Declaration(value) => WrittenLeaf("", DeclarationLeaf, value)
    case Unknown(value) => WrittenLeaf("", UnknownLeaf, value)
  }

  function PlainList(ns: seq<Node>): seq<Written>
    decreases ns, 0
  {
    if ns == [] then [] else [Plain(ns[0])] + PlainList(ns[1..])
  }

  lemma {:induction false} PlainAt(ns: seq<Node>, i: nat)
    requires i < |ns|
    ensures |PlainList(ns)| == |ns| && PlainList(ns)[i] == Plain(ns[i])
    decreases |ns|
  {
    hide Plain;
    if |ns| > 1 {
      PlainAt(ns[1..], if i == 0 then 0 else i - 1);
    }
  }

  lemma NoGap(s: string)
    ensures "" + s == s
  {
  }

  lemma {:induction false} PlainAttributesText(attributes: seq<Attribute>)
    ensures AttributesText(PlainAttributes(attributes)) == PrintAttributes(attributes)
  {
    hide Escape;
    if attributes != [] {
      var a, v := attributes[0], Escape(attributes[0].value, false);
      PlainAttributesText(attributes[1..]);
      NoGap("=" + ("" + ("\"" + (v + "\""))));
      NoGap("\"" + (v + "\""));
      QuotedText(a.name, v);
      assert PlainAttributes(attributes)[1..] == PlainAttributes(attributes[1..]);
    }
  }

  lemma QuotedText(name: string, v: string)
    ensures name + "=\"" + v + "\"" == name + ("=" + ("\"" + (v + "\"")))
  {
    Reassociate(name + "=\"", v, "\"");
    Reassociate(name, "=\"", v + "\"");
    Reassociate("=", "\"", v + "\"");
    assert "=\"" == "=" + "\"";
  }

  /** The printer writes just this. */
  lemma {:induction false} PlainNodeText(n: Node)
    ensures TextOf(Plain(n)) == PrintNode(n)
    decreases n, 1
  {
    hide Escape, AttributesText, PrintAttributes;
    if n.Element? {
      var attributes, after := PrintAttributes(n.attributes), PrintContent(n);
      PlainAttributesText(n.attributes);
      PlainListText(n.children);
      PlainContent(n);
      NoGap(ContentText(n.name, Plain(n).content));
      NoGap(n.name + (attributes + (TagEnd(n.children == []) + after)));
      NoGap(PrintNode(n));
    } else if n.Text? && !n.cdata {
    } else {
      NoGap(PrintNode(n));
    }
  }

  lemma PlainContent(n: Node)
    requires n.Element? && ListText(PlainList(n.children)) == PrintNodes(n.children)
    ensures ContentText(n.name, Plain(n).content) == TagEnd(n.children == []) + PrintContent(n)
  {
    hide PlainAttributes, ListText, PrintNodes;
    if n.children != [] {
      var close := "</" + (n.name + ">");
      NoGap(">");
      NoGap("/" + (n.name + ">"));
      NoGap("<" + ("/" + (n.name + ">")));
      Reassociate("<", "/", n.name + ">");
      assert "</" == "<" + "/";
    } else {
      assert "/>" + "" == "/>";
    }
  }

  lemma {:induction false} PlainListText(ns: seq<Node>)
    ensures ListText(PlainList(ns)) == PrintNodes(ns)
    decreases ns, 0
  {
    hide TextOf, Plain, PrintNode;
    if ns != [] {
      PlainNodeText(ns[0]);
      PlainListText(ns[1..]);
      assert PlainList(ns)[1..] == PlainList(ns[1..]);
    }
  }

  // ----- it means the document -----

  lemma {:induction false} PlainAttributesMean(attributes: seq<Attribute>)
    requires forall a :: a in attributes ==> CleanText(a.value)
    ensures AttributesMeant(PlainAttributes(attributes)) == attributes
  {
    hide Escape, Value;
    if attributes != [] {
      assert attributes[0] in attributes;
      ValueOfEscaped(attributes[0].value, false);
      PlainAttributesMean(attributes[1..]);
      assert PlainAttributes(attributes)[1..] == PlainAttributes(attributes[1..]);
    }
  }

  lemma {:induction false} PlainMeans(n: Node)
    requires Printable(n)
    ensures Meant(Plain(n)) == n
    decreases n, 1
  {
    hide Escape, Value, Contains, CleanText;
    match n {
      case Element(name, attributes, children) =>
        PlainAttributesMean(attributes);
        PlainListMeans(children);
        if children == [] {
          assert AllMeant([]) == [];
        }
      case Text(value, cdata) =>
        if cdata { ValueOfPlain(value); } else { ValueOfEscaped(value, true); }
      case _ =>
        ValueOfPlain(n.value);
    }
  }

  lemma {:induction false} PlainListMeans(ns: seq<Node>)
    requires forall n :: n in ns ==> Printable(n)
    ensures AllMeant(PlainList(ns)) == ns
    decreases ns, 0
  {
    hide Meant, Plain, Printable;
    if ns != [] {
      assert ns[0] in ns;
      PlainMeans(ns[0]);
      PlainListMeans(ns[1..]);
      assert PlainList(ns)[1..] == PlainList(ns[1..]);
    }
  }

  // ----- it is well written -----

  lemma {:induction false} PlainAttributeAt(attributes: seq<Attribute>, i: nat)
    requires i < |attributes|
    ensures |PlainAttributes(attributes)| == |attributes|
    ensures PlainAttributes(attributes)[i]
            == WrittenAttribute(" ", attributes[i].name, "", "", '"', Escape(attributes[i].value, false))
    decreases |attributes|
  {
    hide Escape;
    if |attributes| > 1 {
      PlainAttributeAt(attributes[1..], if i == 0 then 0 else i - 1);
    }
  }

  lemma PlainAttributesAreWell(attributes: seq<Attribute>)
    requires GoodAttributes(attributes)
    ensures WellWrittenAttributes(PlainAttributes(attributes))
  {
    hide Escape, PlainAttributes, IsName, CleanText;
    var ps := PlainAttributes(attributes);
    assert |ps| == |attributes| by { if attributes != [] { PlainAttributeAt(attributes, 0); } else { NoAttributes(); } }
    forall i | 0 <= i < |ps|
      ensures WellWrittenAttribute(ps[i]) && ps[i].name == attributes[i].name && ps[i].before == " "
    {
      PlainAttributeAt(attributes, i);
      assert attributes[i] in attributes;
      EscapedIsFree(attributes[i].value, false, '"');
    }
  }

  lemma NoAttributes()
    ensures PlainAttributes([]) == []
  {
  }

  /** Escaped text is not only whitespace if the text is not, and holds no '<'. */
  lemma {:induction false} EscapedIsText(v: string)
    requires SkipWhiteSpace(v) != ""
    ensures '<' !in Escape(v, true) && !IsGap(Escape(v, true))
    decreases |v|
  {
    hide Escape, EscapeChar;
    EscapedIsFree(v, true, '<');
    if v == "" {
      NoWords();
    } else {
      var e, more := EscapeChar(v[0], true), Escape(v[1..], true);
      EscapeNext(v);
      EscapedFirst(v[0]);
      assert e[0] in e + more;
      FirstCharacter(v);
      if IsWhiteSpace(v[0]) {
        EscapedIsText(v[1..]);
        assert forall c :: c in more ==> c in e + more;
      }
    }
  }

  lemma EscapeNext(v: string)
    requires v != ""
    ensures Escape(v, true) == EscapeChar(v[0], true) + Escape(v[1..], true)
  {
  }

  /** Whitespace is printed as it is, and no other character as an angle bracket or whitespace. */
  lemma EscapedFirst(c: char)
    ensures var e := EscapeChar(c, true);
            if IsWhiteSpace(c) then e == [c] else e[0] != '<' && !IsWhiteSpace(e[0])
  {
    if !IsWhiteSpace(c) {
      EscapeCharIsFree(c, true, '<');
      assert EscapeChar(c, true)[0] in EscapeChar(c, true);
    }
  }

  lemma {:induction false} PlainIsWell(n: Node, docEmpty: bool)
    requires Printable(n) && (n.Declaration? ==> docEmpty)
    ensures WellWritten(Plain(n), docEmpty)
    decreases n, 1
  {
    hide Escape, Value, Contains, CleanText, IsName, PlainAttributes, GoodAttributes, WellWrittenAttributes,
      WellWrittenList, PlainList;
    match n {
      case Element(name, attributes, children) =>
        PlainAttributesAreWell(attributes);
        if children != [] {
          forall i | 0 <= i < |children|
            ensures !children[i].Declaration?
          {
            assert children[i] in children;
          }
          PlainListIsWell(children, docEmpty, false);
        }
      case Text(value, cdata) =>
        if !cdata { EscapedIsText(value); }
      case _ =>
    }
  }

  lemma {:induction false} PlainListIsWell(ns: seq<Node>, docEmpty: bool, top: bool)
    requires PrintableList(ns) && forall i :: 0 <= i < |ns| && ns[i].Declaration? ==> i == 0 && docEmpty && top
    ensures WellWrittenList(PlainList(ns), docEmpty, top)
    decreases ns, 0
  {
    hide Printable, Plain, PlainList, WellWritten;
    var ws := PlainList(ns);
    assert |ws| == |ns| by { if ns != [] { PlainAt(ns, 0); } else { NoPlain(); } }
    forall i | 0 <= i < |ws|
      ensures ws[i] == Plain(ns[i]) && WellWritten(ws[i], docEmpty && (!top || i == 0))
      ensures if ws[i].WrittenText? then PlainText(ns[i]) else ws[i].gap == ""
    {
      PlainAt(ns, i);
      assert ns[i] in ns;
      PlainIsWell(ns[i], docEmpty && (!top || i == 0));
      PlainGap(ns[i]);
    }
    forall i | 0 < i < |ws| && ws[i - 1].WrittenText?
      ensures !ws[i].WrittenText? && ws[i].gap == ""
    {
      assert PlainText(ns[i - 1]);
    }
  }

  lemma NoPlain()
    ensures PlainList([]) == []
  {
  }

  lemma PlainGap(n: Node)
    ensures if Plain(n).WrittenText? then PlainText(n) else !PlainText(n) && Plain(n).gap == ""
  {
    hide Escape;
  }

  lemma {:induction false} EscapedPrefix(pre: string, v: string)
    requires pre <= Escape(v, true) && '&' !in pre
    ensures pre <= v
  {
    hide EscapeChar;
    if pre != "" {
      var e, more := EscapeChar(v[0], true), Escape(v[1..], true);
      assert pre[0] == e[0];
      EscapedHead(v[0]);
      assert (e + more)[1..] == more;
      assert pre[1..] <= more;
      EscapedPrefix(pre[1..], v[1..]);
      assert pre == [pre[0]] + pre[1..] && v == [v[0]] + v[1..];
    }
  }

  lemma EscapedHead(c: char)
    ensures var e := EscapeChar(c, true); e != "" && (e[0] != '&' ==> e == [c])
  {
  }

  lemma FirstIsWord(s: string)
    requires s != "" && !IsGap(s[..1])
    ensures !IsWhiteSpace(s[0])
  {
    assert forall c :: c in s[..1] ==> c == s[0];
  }

  /** Printed text starts a document if the text does. */
  lemma TextStartsDocument(v: string, rest: string)
    requires StartsDocument(v, false)
    ensures StartsDocument(Escape(v, true) + ("<" + rest), false)
  {
    hide EscapeChar;
    var e := Escape(v, true);
    FirstIsWord(v);
    EscapeNext(v);
    EscapedFirst(v[0]);
    assert (e + ("<" + rest))[..1] == [e[0]] && e[0] in [e[0]];
    if BOM <= e + ("<" + rest) {
      PrefixWithin(BOM, e, '<', rest);
      EscapedPrefix(BOM, v);
    }
  }

  /** Reading back the compact printout of a document gives the document. */
  lemma DocumentRoundTrip(ns: seq<Node>)
    requires PrintableDocument(ns)
    ensures ParseDocument(PrintNodes(ns)) == Document(ns)
  {
    hide ParseDocument, PrintNodes, ListText, AllMeant, WellWrittenList, Plain, PlainList, Printable;
    var ws := PlainList(ns);
    PlainListText(ns);
    PlainListMeans(ns);
    PlainListIsWell(ns, true, true);
    PlainAt(ns, 0);
    PlainAt(ns, |ns| - 1);
    PlainGap(ns[0]);
    PlainGap(ns[|ns| - 1]);
    if PlainText(ns[0]) {
      DocumentStarts(ns);
    }
    WrittenDocumentRead("", false, ws, "");
    assert Lead("", false) + (ListText(ws) + "") == ListText(ws);
  }

  lemma DocumentStarts(ns: seq<Node>)
    requires PrintableDocument(ns) && PlainText(ns[0])
    ensures StartsDocument(ListText(PlainList(ns)) + "", false)
  {
    hide Escape, StartsDocument, ListText, PlainList, Printable;
    var v, more := Escape(ns[0].value, true), PrintNodes(ns[1..]);
    PlainListText(ns);
    MarkupFollows(ns);
    assert more == "<" + more[1..];
    TextStartsDocument(ns[0].value, more[1..]);
    assert v + more == v + more + "";
  }

  lemma MarkupFollows(ns: seq<Node>)
    requires |ns| > 1 && !PlainText(ns[1])
    ensures PrintNodes(ns[1..]) != "" && PrintNodes(ns[1..])[0] == '<'
  {
    hide PrintNode;
    MarkupPrinted(ns[1]);
    assert ns[1..][0] == ns[1];
  }

  lemma MarkupPrinted(n: Node)
    requires !PlainText(n)
    ensures PrintNode(n) != "" && PrintNode(n)[0] == '<'
  {
  }
}
