/**
 The recursive-descent parser and the compact printer of
 `native/mars/comm/tinyxml2.cc`. A C string is a `string`; its end stands for
 the NUL terminator. The parse functions work on the text still to be read.
 */
module XmlDocuments {

  import opened Options
  import opened Strings
  import opened XmlText

  datatype Attribute = Attribute(name: string, value: string)

  datatype Node =
    | Element(name: string, attributes: seq<Attribute>, children: seq<Node>)
    | Text(value: string, cdata: bool)
    | Comment(value: string)
    | Declaration(value: string)
    | Unknown(value: string)

  datatype Error =
    | Parsing | MismatchedElement | ParsingElement | ParsingAttribute | ParsingText
    | ParsingCData | ParsingComment | ParsingDeclaration | ParsingUnknown | EmptyDocument

  // ----- lexical parts -----

  predicate IsNameStartChar(c: char) {
    c as int >= 128 || 'a' <= c <= 'z' || 'A' <= c <= 'Z' || c == ':' || c == '_'
  }

  predicate IsNameChar(c: char) {
    IsNameStartChar(c) || '0' <= c <= '9' || c == '.' || c == '-'
  }

  function NameLength(s: string): (n: nat)
    ensures n <= |s|
  {
    if s == "" || !IsNameChar(s[0]) then 0 else 1 + NameLength(s[1..])
  }

  /** A parsed part and the text after it. */
  datatype Part = NoPart | Part(text: string, rest: string)

  function ParseName(s: string): (r: Part)
    ensures r.Part? ==> |r.rest| < |s| && r.text != ""
  {
    if s == "" || !IsNameStartChar(s[0]) then NoPart else
    var n := 1 + NameLength(s[1..]);
    Part(s[..n], s[n..])
  }

  /** `ParseText`: everything up to the end tag, which is consumed. */
  function ParseText(s: string, tag: string): (r: Part)
    requires tag != ""
    ensures r.Part? ==> |r.rest| < |s|
  {
    var i := FindTag(s, tag, 0);
    if i == |s| then NoPart else Part(s[..i], s[i + |tag|..])
  }

  const TEXT := Flags(true, true, false)
  const NEWLINES := Flags(false, true, false)
  const NONE := Flags(false, false, false)

  // ----- attributes -----

  datatype AttributeResult = NoAttribute | OneAttribute(attribute: Attribute, rest: string)

  function ParseAttribute(s: string): (r: AttributeResult)
    ensures r.OneAttribute? ==> |r.rest| < |s|
  {
    var name := ParseName(s);
    if name.NoPart? || name.rest == "" then NoAttribute else
    var t := SkipWhiteSpace(name.rest);
    if t == "" || t[0] != '=' then NoAttribute else
    var u := SkipWhiteSpace(t[1..]);
    if u == "" || (u[0] != '"' && u[0] != '\'') then NoAttribute else
    var value := ParseText(u[1..], [u[0]]);
    if value.NoPart? then NoAttribute
    else OneAttribute(Attribute(name.text, Value(TEXT, value.text)), value.rest)
  }

  predicate HasAttribute(attributes: seq<Attribute>, name: string) {
    exists a :: a in attributes && a.name == name
  }

  datatype TagResult = TagFailed(error: Error) | Tag(attributes: seq<Attribute>, sealed: bool, rest: string)

  /** `ParseAttributes`: the rest of a tag; a repeated attribute name is an error. */
  function ParseAttributes(s: string, attributes: seq<Attribute>): (r: TagResult)
    ensures r.Tag? ==> |r.rest| < |s|
    decreases |s|, 1
  {
    TagAt(SkipWhiteSpace(s), attributes)
  }

  /** The rest of a tag from its first character that is no whitespace on. */
  function TagAt(t: string, attributes: seq<Attribute>): (r: TagResult)
    ensures r.Tag? ==> |r.rest| < |t|
    decreases |t|, 0
  {
    if t == "" then TagFailed(ParsingElement)
    else if IsNameStartChar(t[0]) then
      match ParseAttribute(t)
      case NoAttribute => TagFailed(ParsingAttribute)
      case OneAttribute(a, rest) =>
        if HasAttribute(attributes, a.name) then TagFailed(ParsingAttribute)
        else ParseAttributes(rest, attributes + [a])
    else if t[0] == '>' then Tag(attributes, false, t[1..])
    else if "/>" <= t then Tag(attributes, true, t[2..])
    else TagFailed(ParsingElement)
  }

  // ----- nodes -----

  datatype Closing = Open | Sealed | Close

  /**
   One node read: an opening tag comes with its children and the name of the
   closing tag one of them met; a closing tag is read like an element.
   */
  datatype NodeResult =
    | NoNode
    | NodeFailed(error: Error)
    | OneNode(node: Node, closing: Closing, endTag: Option<string>, rest: string)

  /** The outcome of a list of children: a closing tag, the end of the text or an error. */
  datatype ListResult =
    | Closed(nodes: seq<Node>, name: string, rest: string)
    | AtEnd(nodes: seq<Node>)
    | Failed(error: Error)

  /** A tag whose last character occurs only there cannot start inside the text before it. */
  predicate SharpTag(tag: string) {
    tag != "" && forall i :: 0 <= i < |tag| - 1 ==> tag[i] != tag[|tag| - 1]
  }

  /** The nodes that parse as text up to a fixed tag. */
  datatype LeafKind = DeclarationLeaf | CommentLeaf | CDataLeaf | UnknownLeaf {
    function Header(): string {
      match this
      case DeclarationLeaf => "<?"
      case CommentLeaf => "<!--"
      case CDataLeaf => "<![CDATA["
      case UnknownLeaf => "<!"
    }

    function EndTag(): (tag: string)
      ensures SharpTag(tag)
    {
      match this
      case DeclarationLeaf => "?>"
      case CommentLeaf => "-->"
      case CDataLeaf => "]]>"
      case UnknownLeaf => ">"
    }

    function Failure(): Error {
      match this
      case DeclarationLeaf => ParsingDeclaration
      case CommentLeaf => ParsingComment
      case CDataLeaf => ParsingCData
      case UnknownLeaf => ParsingUnknown
    }

    function Make(value: string): Node {
      match this
      case DeclarationLeaf => Declaration(value)
      case CommentLeaf => Comment(value)
      case CDataLeaf => Text(value, true)
      case UnknownLeaf => Unknown(value)
    }
  }

  function ParseLeaf(s: string, kind: LeafKind): (r: NodeResult)
    ensures r.OneNode? ==> |r.rest| < |s|
    ensures !r.NoNode?
  {
    match ParseText(s, kind.EndTag())
    case NoPart => NodeFailed(kind.Failure())
    case Part(span, rest) => OneNode(kind.Make(Value(NEWLINES, span)), Open, None, rest)
  }

  /** The headers in the order `Identify` tries them; none for an element or plain text. */
  function LeafAt(t: string): (k: Option<LeafKind>)
    ensures k.Some? ==> k.value.Header() <= t
  {
    if "<?" <= t then Some(DeclarationLeaf)
    else if "<!--" <= t then Some(CommentLeaf)
    else if "<![CDATA[" <= t then Some(CDataLeaf)
    else if "<!" <= t then Some(UnknownLeaf)
    else None
  }

  /** `Identify` and the virtual `ParseDeep` of the node it picks. */
  function ParseNode(s: string, docEmpty: bool): (r: NodeResult)
    ensures r.OneNode? ==> |r.rest| < |s|
    decreases |s|, 2
  {
    NodeAt(s, SkipWhiteSpace(s), docEmpty)
  }

  /** A node from its first character that is no whitespace on; text counts from s on. */
  function NodeAt(s: string, t: string, docEmpty: bool): (r: NodeResult)
    requires t == SkipWhiteSpace(s)
    ensures r.OneNode? ==> |r.rest| < |s|
    decreases |s|, 1
  {
    if t == "" then NoNode
    else if LeafAt(t).Some? then ParseLeaf(t[|LeafAt(t).value.Header()|..], LeafAt(t).value)
    else if t[0] == '<' then ParseElement(t[1..], docEmpty)
    else
      TextConsumes(s);
      TextAt(s)
  }

  /** All of the text counts; the '<' that ends it is left for the next node. */
  function TextAt(s: string): NodeResult {
    match ParseText(s, "<")
    case NoPart => NodeFailed(ParsingText)
    case Part(span, rest) =>
      if rest == "" then NodeFailed(Parsing) else OneNode(Text(Value(TEXT, span), false), Open, None, "<" + rest)
  }

  lemma TextConsumes(s: string)
    requires SkipWhiteSpace(s) != "" && SkipWhiteSpace(s)[0] != '<'
    ensures var r := ParseText(s, "<"); r.Part? ==> |r.rest| + 1 < |s|
  {
    NoWords();
    FirstCharacter(s);
    assert s[0] != '<' && s[0..] == s;
  }

  /** `XMLElement::ParseDeep`, after the '<'. */
  function ParseElement(s: string, docEmpty: bool): (r: NodeResult)
    ensures r.OneNode? ==> |r.rest| < |s|
    decreases |s|, 1
  {
    var t := SkipWhiteSpace(s);
    var closing := t != "" && t[0] == '/';
    ElementAt(if closing then t[1..] else t, closing, docEmpty)
  }

  /** An element from its name on. */
  function ElementAt(t: string, closing: bool, docEmpty: bool): (r: NodeResult)
    ensures r.OneNode? ==> |r.rest| < |t|
    decreases |t|, 0
  {
    match ParseName(t)
    case NoPart => NodeFailed(Parsing)
    case Part(name, rest) =>
      match ParseAttributes(rest, [])
      case TagFailed(e) => NodeFailed(e)
      case Tag(attributes, sealed, rest) => ParseContent(name, closing, attributes, sealed, rest, docEmpty)
  }

  /** What follows once name and attributes have been read. */
  function ParseContent(name: string, closing: bool, attributes: seq<Attribute>, sealed: bool, s: string,
                        docEmpty: bool)
    : (r: NodeResult)
    ensures r.OneNode? ==> |r.rest| <= |s|
    decreases |s|, 4
  {
    if sealed then OneNode(Element(name, attributes, []), Sealed, None, s)
    else if closing then OneNode(Element(name, attributes, []), Close, None, s)
    else if s == "" then OneNode(Element(name, attributes, []), Open, None, s)
    else ContentAt(name, attributes, ParseList(s, [], docEmpty, false))
  }

  /** An element once its children have been read. */
  function ContentAt(name: string, attributes: seq<Attribute>, list: ListResult): NodeResult {
    match list
    case Failed(e) => NodeFailed(e)
    case AtEnd(_) => NodeFailed(Parsing)
    case Closed(children, end, rest) => OneNode(Element(name, attributes, children), Open, Some(end), rest)
  }

  /**
   The loop of `XMLNode::ParseDeep`: a closing tag read as a child ends the list
   and is handed to the parent. `docEmpty` says that the document has no child yet.
   */
  function ParseList(s: string, nodes: seq<Node>, docEmpty: bool, top: bool): (r: ListResult)
    ensures r.Closed? ==> |r.rest| < |s|
    decreases |s|, 3
  {
    if s == "" then AtEnd(nodes) else ListAt(ParseNode(s, docEmpty), nodes, docEmpty, top)
  }

  /** The list once its next node has been read. */
  function ListAt(g: NodeResult, nodes: seq<Node>, docEmpty: bool, top: bool): (r: ListResult)
    ensures r.Closed? ==> g.OneNode? && |r.rest| <= |g.rest|
    decreases if g.OneNode? then |g.rest| + 1 else 0, 0
  {
    match g
    case NoNode => AtEnd(nodes)
    case NodeFailed(e) => Failed(e)
    case OneNode(node, closing, endTag, rest) =>
      if node.Declaration? && !docEmpty then Failed(ParsingDeclaration)
      else if node.Element? && closing == Close then Closed(nodes, node.name, rest)
      else if node.Element? && Mismatch(node.name, closing, endTag) then Failed(MismatchedElement)
      else ParseList(rest, nodes + [node], docEmpty && !top, top)
  }

  predicate Mismatch(name: string, closing: Closing, endTag: Option<string>) {
    if endTag.None? then closing == Open else closing != Open || endTag.value != name
  }

  datatype DocumentResult = DocumentFailed(error: Error) | Document(nodes: seq<Node>)

  const BOM: string := [0xEF as char, 0xBB as char, 0xBF as char]

  /** `XMLDocument::Parse`: a closing tag without an open element silently ends the document. */
  function ParseDocument(s: string): DocumentResult {
    var t := SkipWhiteSpace(s);
    var u := if BOM <= t then t[3..] else t;
    if u == "" then DocumentFailed(EmptyDocument) else
    match ParseList(u, [], true, true)
    case Failed(e) => DocumentFailed(e)
    case AtEnd(nodes) => Document(nodes)
    case Closed(nodes, _, _) => Document(nodes)
  }

  // ----- the printed form -----

  /** The table entry a character is written as: in text (`restricted`) quotes stay. */
  function EntityOf(c: char, restricted: bool): (i: nat)
    ensures i <= |ENTITIES| && (i < |ENTITIES| ==> ENTITIES[i].1 == c)
  {
    if c == '"' && !restricted then 0
    else if c == '&' then 1
    else if c == '\'' && !restricted then 2
    else if c == '<' then 3
    else if c == '>' then 4
    else |ENTITIES|
  }

  function EscapeChar(c: char, restricted: bool): (r: string)
    ensures r != ""
  {
    var i := EntityOf(c, restricted);
    if i < |ENTITIES| then "&" + ENTITIES[i].0 + ";" else [c]
  }

  function Escape(s: string, restricted: bool): string {
    if s == "" then "" else EscapeChar(s[0], restricted) + Escape(s[1..], restricted)
  }

  function PrintAttribute(a: Attribute): string {
    a.name + "=\"" + Escape(a.value, false) + "\""
  }

  function PrintAttributes(attributes: seq<Attribute>): string {
    if attributes == [] then "" else " " + PrintAttribute(attributes[0]) + PrintAttributes(attributes[1..])
  }

  /** How a tag ends. */
  function TagEnd(sealed: bool): string { if sealed then "/>" else ">" }

  function PrintNode(n: Node): string
    decreases n, 1
  {
    match n
    case Element(name, attributes, children) =>
      "<" + (name + (PrintAttributes(attributes) + (TagEnd(children == []) + PrintContent(n))))
    case Text(value, cdata) => if cdata then "<![CDATA[" + (value + "]]>") else Escape(value, true)
    case Comment(value) => "<!--" + (value + "-->")
    case Declaration(value) => "<?" + (value + "?>")
    case Unknown(value) => "<!" + (value + ">")
  }

  predicate PlainText(n: Node) { n.Text? && !n.cdata }

  /** What follows the opening tag of an element. */
  function PrintContent(n: Node): string
    requires n.Element?
    decreases n, 0
  {
    if n.children == [] then "" else PrintNodes(n.children) + ("</" + (n.name + ">"))
  }

  function PrintNodes(ns: seq<Node>): string
    decreases ns, 0
  {
    if ns == [] then "" else PrintNode(ns[0]) + PrintNodes(ns[1..])
  }
}
