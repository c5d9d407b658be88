/**
 The compact mode of `XMLPrinter` (`native/mars/comm/tinyxml2.cc`): a visitor
 that delays the end of an opening tag until it knows whether content follows.
 */
module XmlPrinting {

  import opened Sequences
  import opened XmlText
  import opened XmlDocuments

  lemma {:induction false} EscapeConcat(x: string, y: string, restricted: bool)
    ensures Escape(x + y, restricted) == Escape(x, restricted) + Escape(y, restricted)
  {
    if x == "" {
      assert x + y == y;
    } else {
      assert (x + y)[1..] == x[1..] + y;
      EscapeConcat(x[1..], y, restricted);
    }
  }

  lemma {:induction false} EscapeNothing(s: string, restricted: bool)
    requires forall c :: c in s ==> EntityOf(c, restricted) == |ENTITIES|
    ensures Escape(s, restricted) == s
  {
    hide EntityOf;
    if s != "" {
      assert forall c :: c in s[1..] ==> c in s;
      assert s[0] in s && EscapeChar(s[0], restricted) == [s[0]];
      EscapeNothing(s[1..], restricted);
      assert s == [s[0]] + s[1..];
    }
  }

  class XMLPrinter {
    var buffer: string
    var stack: seq<string>
    var elementJustOpened: bool

    constructor ()
      ensures buffer == "" && stack == [] && !elementJustOpened
    {
      buffer, stack, elementJustOpened := "", [], false;
    }

    method Print(s: string)
      modifies `buffer
      ensures buffer == old(buffer) + s
    {
      buffer := buffer + s;
    }

    /** Prints runs of ordinary characters and an entity for each of the others. */
    method PrintString(s: string, restricted: bool)
      modifies `buffer
      ensures buffer == old(buffer) + Escape(s, restricted)
    {
      hide Escape, EscapeChar;
      var p, q := 0, 0;
      ghost var out := "";
      EscapeEmpty(restricted);
      while q < |s|
        invariant 0 <= p <= q <= |s|
        invariant buffer == old(buffer) + out && out == Escape(s[..p], restricted)
        invariant forall c :: c in s[p..q] ==> EntityOf(c, restricted) == |ENTITIES|
      {
        var i := EntityOf(s[q], restricted);
        if i < |ENTITIES| {
          Flush(s, p, q, restricted);
          PrintEntity(i);
          EscapeNext(s, q, restricted);
          out := Escape(s[..q + 1], restricted);
          p := q + 1;
        } else {
          assert s[p..q + 1] == s[p..q] + [s[q]];
        }
        q := q + 1;
      }
      Flush(s, p, q, restricted);
      assert s[..q] == s;
    }

    method PrintEntity(i: nat)
      requires i < |ENTITIES|
      modifies `buffer
      ensures buffer == old(buffer) + ("&" + ENTITIES[i].0 + ";")
    {
      Print("&" + ENTITIES[i].0 + ";");
    }

    method Flush(s: string, p: nat, q: nat, restricted: bool)
      requires p <= q <= |s|
      requires forall c :: c in s[p..q] ==> EntityOf(c, restricted) == |ENTITIES|
      modifies `buffer
      ensures buffer == old(buffer) + s[p..q]
      ensures Escape(s[..q], restricted) == Escape(s[..p], restricted) + s[p..q]
    {
      Print(s[p..q]);
      assert s[..q] == s[..p] + s[p..q];
      EscapeConcat(s[..p], s[p..q], restricted);
      EscapeNothing(s[p..q], restricted);
    }

    method SealElementIfJustOpened()
      modifies `buffer, `elementJustOpened
      ensures !elementJustOpened
      ensures buffer == old(buffer) + if old(elementJustOpened) then ">" else ""
    {
      if elementJustOpened {
        elementJustOpened := false;
        Print(">");
      }
    }

    method OpenElement(name: string)
      modifies this
      ensures elementJustOpened && stack == old(stack) + [name]
      ensures buffer == old(buffer) + (if old(elementJustOpened) then ">" else "") + "<" + name
    {
      SealElementIfJustOpened();
      stack := stack + [name];
      Print("<" + name);
      elementJustOpened := true;
    }

    method PushAttribute(a: Attribute)
      requires elementJustOpened
      modifies `buffer
      ensures buffer == old(buffer) + (" " + PrintAttribute(a))
    {
      hide Escape;
      ghost var before, value := buffer, Escape(a.value, false);
      Print(" " + a.name + "=\"");
      PrintString(a.value, false);
      Print("\"");
      AttributeText(before, a.name, value);
    }

    method PushAttributes(attributes: seq<Attribute>)
      requires elementJustOpened
      modifies `buffer
      ensures buffer == old(buffer) + PrintAttributes(attributes)
    {
      hide PrintAttribute, PrintAttributes;
      var i := 0;
      ghost var out := "";
      assert attributes[0..] == attributes && "" + PrintAttributes(attributes) == PrintAttributes(attributes);
      AttributesEmpty();
      while i < |attributes|
        invariant 0 <= i <= |attributes|
        invariant buffer == old(buffer) + out && out + PrintAttributes(attributes[i..]) == PrintAttributes(attributes)
      {
        PushAttribute(attributes[i]);
        ghost var next := " " + PrintAttribute(attributes[i]);
        AttributesNext(attributes, i);
        Reassociate(out, next, PrintAttributes(attributes[i + 1..]));
        Reassociate(old(buffer), out, next);
        out := out + next;
        i := i + 1;
      }
      assert attributes[i..] == [] && out + "" == out;
    }

    method CloseElement()
      requires stack != []
      modifies this
      ensures !elementJustOpened && stack == old(stack)[..|old(stack)| - 1]
      ensures buffer == old(buffer) + if old(elementJustOpened) then "/>"
                                      else "</" + (old(stack)[|old(stack)| - 1] + ">")
    {
      var name := stack[|stack| - 1];
      stack := stack[..|stack| - 1];
      if elementJustOpened {
        Print("/>");
      } else {
        Print("</" + (name + ">"));
      }
      elementJustOpened := false;
    }

    /** The pushes for text, comments, declarations and unknowns. */
    method PushLeaf(n: Node)
      requires !n.Element?
      modifies this
      ensures !elementJustOpened && stack == old(stack)
      ensures buffer == old(buffer) + (if old(elementJustOpened) then ">" else "") + PrintNode(n)
    {
      SealElementIfJustOpened();
      match n
      case Text(value, cdata) =>
        if cdata {
          Print("<![CDATA[" + (value + "]]>"));
        } else {
          PrintString(value, true);
        }
      case Comment(value) => Print("<!--" + (value + "-->"));
      case Declaration(value) => Print("<?" + (value + "?>"));
      case Unknown(value) => Print("<!" + (value + ">"));
    }

    /** `Accept`: visits a node and everything below it. */
    method Accept(n: Node)
      modifies this
      ensures !elementJustOpened && stack == old(stack)
      ensures buffer == old(buffer) + (if old(elementJustOpened) then ">" else "") + PrintNode(n)
      decreases n, 1
    {
      if n.Element? {
        AcceptElement(n);
      } else {
        PushLeaf(n);
      }
    }

    method AcceptElement(n: Node)
      requires n.Element?
      modifies this
      ensures !elementJustOpened && stack == old(stack)
      ensures buffer == old(buffer) + (if old(elementJustOpened) then ">" else "") + PrintNode(n)
      decreases n, 0
    {
      hide PrintAttributes, PrintNodes;
      ghost var seal := if elementJustOpened then ">" else "";
      OpenElement(n.name);
      PushAttributes(n.attributes);
      ghost var attributes := PrintAttributes(n.attributes);
      ghost var content := TagEnd(n.children == []) + PrintContent(n);
      ghost var before := buffer;
      AcceptAll(n.children);
      ghost var between := buffer;
      CloseElement();
      ContentParts(n, before, between, buffer);
      assert old(buffer) + seal + "<" + n.name + attributes + content
             == old(buffer) + seal + ("<" + (n.name + (attributes + content)));
    }

    method AcceptAll(ns: seq<Node>)
      modifies this
      ensures elementJustOpened == (old(elementJustOpened) && ns == []) && stack == old(stack)
      ensures buffer == old(buffer) + (if old(elementJustOpened) && ns != [] then ">" else "") + PrintNodes(ns)
      decreases ns, 0
    {
      hide PrintNode, PrintNodes;
      var i := 0;
      ghost var out := "";
      NodesEmpty();
      ghost var seal := if elementJustOpened && ns != [] then ">" else "";
      assert ns[0..] == ns && "" + PrintNodes(ns) == PrintNodes(ns);
      while i < |ns|
        invariant 0 <= i <= |ns| && stack == old(stack)
        invariant elementJustOpened == (old(elementJustOpened) && i == 0)
        invariant buffer == old(buffer) + (if i == 0 then "" else seal) + out
        invariant out + PrintNodes(ns[i..]) == PrintNodes(ns) && (i == 0 ==> out == "")
      {
        ghost var next := PrintNode(ns[i]);
        Accept(ns[i]);
        NodesNext(ns, i);
        Reassociate(out, next, PrintNodes(ns[i + 1..]));
        Reassociate(old(buffer) + seal, out, next);
        out := out + next;
        i := i + 1;
      }
      assert ns[i..] == [] && out + "" == out && old(buffer) + "" + "" == old(buffer);
    }
  }

  lemma AttributeText(before: string, name: string, value: string)
    ensures before + (" " + name + "=\"") + value + "\"" == before + (" " + (name + "=\"" + value + "\""))
  {
  }

  lemma AttributesEmpty()
    ensures PrintAttributes([]) == ""
  {
  }

  lemma AttributesNext(attributes: seq<Attribute>, i: nat)
    requires i < |attributes|
    ensures PrintAttributes(attributes[i..])
         == (" " + PrintAttribute(attributes[i])) + PrintAttributes(attributes[i + 1..])
  {
    hide PrintAttribute;
    assert attributes[i..][1..] == attributes[i + 1..];
  }

  lemma NodesEmpty()
    ensures PrintNodes([]) == ""
  {
  }

  lemma NodesNext(ns: seq<Node>, i: nat)
    requires i < |ns|
    ensures PrintNodes(ns[i..]) == PrintNode(ns[i]) + PrintNodes(ns[i + 1..])
  {
    hide PrintNode;
    assert ns[i..][1..] == ns[i + 1..];
  }

  lemma EscapeEmpty(restricted: bool)
    ensures Escape("", restricted) == ""
  {
  }

  lemma EscapeNext(s: string, q: nat, restricted: bool)
    requires q < |s|
    ensures Escape(s[..q + 1], restricted) == Escape(s[..q], restricted) + EscapeChar(s[q], restricted)
    ensures EntityOf(s[q], restricted) < |ENTITIES| ==>
              EscapeChar(s[q], restricted) == "&" + ENTITIES[EntityOf(s[q], restricted)].0 + ";"
  {
    assert s[..q + 1] == s[..q] + [s[q]];
    EscapeConcat(s[..q], [s[q]], restricted);
    assert [s[q]][1..] == "" && EscapeChar(s[q], restricted) + "" == EscapeChar(s[q], restricted);
  }

  /** The delayed end of the opening tag, the children and the closing tag make up the content. */
  lemma ContentParts(n: Node, before: string, between: string, after: string)
    requires n.Element?
    requires between == before + (if n.children != [] then ">" else "") + PrintNodes(n.children)
    requires after == between + if n.children == [] then "/>" else "</" + (n.name + ">")
    ensures after == before + (TagEnd(n.children == []) + PrintContent(n))
  {
    hide PrintNodes;
    if n.children == [] {
      NodesEmpty();
      assert between == before;
    } else {
      var inner, close := PrintNodes(n.children), "</" + (n.name + ">");
      Reassociate(before + ">", inner, close);
      Reassociate(before, ">", inner + close);
    }
  }

  /** A document printed by a fresh printer. */
  method PrintDocument(ns: seq<Node>) returns (s: string)
    ensures s == PrintNodes(ns)
  {
    var printer := new XMLPrinter();
    printer.AcceptAll(ns);
    s := printer.buffer;
  }

  // ----- the form of the printout -----

  /** Quotes stay as they are in text only; nothing else needs an entity. */
  predicate NeedsEntity(c: char, restricted: bool) {
    c == '&' || c == '<' || c == '>' || (!restricted && (c == '"' || c == '\''))
  }

  /** Text is printed as it stands exactly if none of its characters needs an entity. */
  lemma {:induction false} EscapedExactly(s: string, restricted: bool)
    ensures |Escape(s, restricted)| >= |s|
    ensures Escape(s, restricted) == s <==> forall c :: c in s ==> !NeedsEntity(c, restricted)
    ensures (exists c :: c in s && NeedsEntity(c, restricted)) ==> |Escape(s, restricted)| > |s|
  {
    hide EscapeChar;
    if s != "" {
      EscapedCharacter(s[0], restricted);
      EscapedExactly(s[1..], restricted);
      assert s == [s[0]] + s[1..];
    }
  }

  lemma EscapedCharacter(c: char, restricted: bool)
    ensures if NeedsEntity(c, restricted) then |EscapeChar(c, restricted)| > 1 else EscapeChar(c, restricted) == [c]
  {
  }

  /** What an element is printed as: a tag that closes itself exactly if nothing is in it. */
  lemma PrintedElement(name: string, attributes: seq<Attribute>, children: seq<Node>)
    ensures PrintNode(Element(name, attributes, children))
            == if children == [] then "<" + name + PrintAttributes(attributes) + "/>"
               else "<" + name + PrintAttributes(attributes) + ">" + PrintNodes(children) + "</" + name + ">"
  {
    hide PrintAttributes, PrintNodes;
    if children == [] {
      SelfClosing(name, PrintAttributes(attributes));
    } else {
      WithChildren(name, PrintAttributes(attributes), PrintNodes(children));
    }
  }

  lemma PrintedAttribute(a: Attribute)
    ensures PrintAttributes([a]) == " " + a.name + "=\"" + Escape(a.value, false) + "\""
  {
    hide Escape;
    AttributeText("", a.name, Escape(a.value, false));
    assert PrintAttributes([]) == "";
  }

  lemma SelfClosing(name: string, attributes: string)
    ensures "<" + (name + (attributes + ("/>" + ""))) == "<" + name + attributes + "/>"
  {
  }

  lemma WithChildren(name: string, attributes: string, inside: string)
    ensures "<" + (name + (attributes + (">" + (inside + ("</" + (name + ">"))))))
            == "<" + name + attributes + ">" + inside + "</" + name + ">"
  {
    Reassociate("<" + name + attributes + ">" + inside + "</", name, ">");
    Reassociate("<" + name + attributes + ">" + inside, "</", name + ">");
    Reassociate("<" + name + attributes + ">", inside, "</" + (name + ">"));
    Reassociate("<" + name + attributes, ">", inside + ("</" + (name + ">")));
    Reassociate("<" + name, attributes, ">" + (inside + ("</" + (name + ">"))));
    Reassociate("<", name, attributes + (">" + (inside + ("</" + (name + ">")))));
  }

  /** Attributes and siblings are printed one after the other. */
  lemma {:induction false} PrintedInOrder(attributes: seq<Attribute>, a: Attribute, ns: seq<Node>, n: Node)
    ensures PrintAttributes(attributes + [a]) == PrintAttributes(attributes) + PrintAttributes([a])
    ensures PrintNodes(ns + [n]) == PrintNodes(ns) + PrintNode(n)
    decreases |attributes| + |ns|
  {
    hide PrintAttribute, PrintNode;
    if attributes != [] {
      PrintedInOrder(attributes[1..], a, [], n);
      assert (attributes + [a])[1..] == attributes[1..] + [a];
      Reassociate(" " + PrintAttribute(attributes[0]), PrintAttributes(attributes[1..]), PrintAttributes([a]));
    } else {
      assert [] + [a] == [a] && "" + PrintAttributes([a]) == PrintAttributes([a]);
    }
    if ns != [] {
      PrintedInOrder([], a, ns[1..], n);
      assert (ns + [n])[1..] == ns[1..] + [n];
      Reassociate(PrintNode(ns[0]), PrintNodes(ns[1..]), PrintNode(n));
    } else {
      assert [] + [n] == [n] && PrintNode(n) + "" == PrintNode(n) == "" + PrintNode(n);
    }
  }
}
