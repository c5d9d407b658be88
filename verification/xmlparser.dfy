/**
 The parser of `native/mars/comm/tinyxml2.cc` in its own form: it walks an
 index over the parse buffer, marks strings there without copying them and
 already decodes names, in place, while it is still reading behind them. What
 it delivers is the tree of `XmlDocuments`, in whatever order its strings are read.
 */
module XmlParser {

  import opened Options
  import opened Strings
  import opened XmlText
  import opened XmlDocuments

  // ----- trees over the parse buffer -----

  datatype Attr = Attr(name: StrPair, value: StrPair)

  datatype Tree =
    | ElementTree(name: StrPair, attributes: seq<Attr>, children: seq<Tree>)
    | TextTree(value: StrPair)
    | LeafTree(kind: LeafKind, value: StrPair)

  /** What a tree denotes: every string read. */
  ghost function NodeOf(tree: Tree): Node
    decreases tree, 1
  {
    match tree
    case ElementTree(name, attributes, children) =>
      Element(name.value, AttributesOf(attributes), NodesOf(children))
    case TextTree(value) => Text(value.value, false)
    case LeafTree(kind, value) => kind.Make(value.value)
  }

  ghost function NodesOf(trees: seq<Tree>): seq<Node>
    decreases trees, 0
  {
    if trees == [] then [] else
      var n := |trees| - 1;
      NodesOf(trees[..n]) + [NodeOf(trees[n])]
  }

  ghost function AttributesOf(attributes: seq<Attr>): seq<Attribute> {
    seq(|attributes|, i requires 0 <= i < |attributes| =>
      Attribute(attributes[i].name.value, attributes[i].value.value))
  }

  /** The strings of a tree in the order they stand in the buffer. */
  function PairsOf(tree: Tree): seq<StrPair>
    decreases tree, 1
  {
    match tree
    case ElementTree(name, attributes, children) => [name] + (AttrPairs(attributes) + TreePairs(children))
    case TextTree(value) => [value]
    case LeafTree(_, value) => [value]
  }

  function TreePairs(trees: seq<Tree>): seq<StrPair>
    decreases trees, 0
  {
    if trees == [] then [] else
      var n := |trees| - 1;
      TreePairs(trees[..n]) + PairsOf(trees[n])
  }

  function AttrPairs(attributes: seq<Attr>): seq<StrPair> {
    if attributes == [] then [] else
      var n := |attributes| - 1;
      AttrPairs(attributes[..n]) + [attributes[n].name, attributes[n].value]
  }

  lemma OneMoreTree(trees: seq<Tree>, tree: Tree)
    ensures NodesOf(trees + [tree]) == NodesOf(trees) + [NodeOf(tree)]
    ensures TreePairs(trees + [tree]) == TreePairs(trees) + PairsOf(tree)
  {
    hide NodeOf, PairsOf;
    assert (trees + [tree])[..|trees|] == trees;
  }

  lemma OneMoreAttr(attributes: seq<Attr>, a: Attr)
    ensures AttributesOf(attributes + [a]) == AttributesOf(attributes) + [Attribute(a.name.value, a.value.value)]
    ensures AttrPairs(attributes + [a]) == AttrPairs(attributes) + [a.name, a.value]
  {
    assert (attributes + [a])[..|attributes|] == attributes;
  }

  // ----- disjoint spans -----

  /** The spans with their terminators lie in this order between lo and hi. */
  ghost predicate Laid(ps: seq<StrPair>, buf: array<char>, lo: nat, hi: nat) {
    && (forall i :: 0 <= i < |ps| ==> ps[i].buf == buf && lo <= ps[i].first <= ps[i].end < hi)
    && (forall i, j :: 0 <= i < j < |ps| ==> ps[i].end < ps[j].first)
  }

  ghost predicate AllIn(ps: seq<StrPair>, s: string)
    reads ps
  {
    forall i :: 0 <= i < |ps| ==> ps[i].ValidIn(s)
  }

  lemma LaidConcat(x: seq<StrPair>, y: seq<StrPair>, buf: array<char>, lo: nat, mid: nat, hi: nat)
    requires Laid(x, buf, lo, mid) && Laid(y, buf, mid, hi) && lo <= mid <= hi
    ensures Laid(x + y, buf, lo, hi)
  {
  }

  lemma AllConcat(x: seq<StrPair>, y: seq<StrPair>, s: string)
    requires AllIn(x, s) && AllIn(y, s)
    ensures AllIn(x + y, s)
  {
  }

  /** A pair does not depend on what stands outside of its span. */
  lemma StaysValid(p: StrPair, was: string, now: string)
    requires p.ValidIn(was) && |was| == |now|
    requires forall k :: p.first <= k <= p.end ==> was[k] == now[k]
    ensures p.ValidIn(now)
  {
    assert was[p.first..p.end] == now[p.first..p.end];
    if !p.flush {
      assert was[p.start..p.start + |p.value|] == now[p.start..p.start + |p.value|];
    }
  }

  lemma AllStay(ps: seq<StrPair>, buf: array<char>, lo: nat, hi: nat, was: string, now: string)
    requires Laid(ps, buf, lo, hi) && AllIn(ps, was) && |was| == |now|
    requires forall k :: lo <= k < hi && k < |was| ==> was[k] == now[k]
    ensures AllIn(ps, now)
  {
    forall i | 0 <= i < |ps|
      ensures ps[i].ValidIn(now)
    {
      StaysValid(ps[i], was, now);
    }
  }

  // ----- marking strings -----

  datatype Marked = NoSpan | Marked(pair: StrPair, at: nat)

  method Mark(buf: array<char>, p: nat, q: nat, flags: Flags, ghost t: string) returns (pair: StrPair)
    requires p <= q <= |t| && Shows(buf, t, p)
    ensures fresh(pair) && pair.ValidIn(buf[..]) && pair.buf == buf && pair.first == p && pair.end == q
    ensures pair.value == Value(flags, t[p..q])
  {
    hide Value;
    assert buf[p..q] == t[p..q];
    pair := new StrPair(buf, p, q, flags);
  }

  method NameEnd(buf: array<char>, p: nat, ghost t: string) returns (q: nat)
    requires p < |t| && Shows(buf, t, p)
    ensures p < q <= |t| && q == p + 1 + NameLength(t[p + 1..])
    ensures q < |t| ==> !IsNameStartChar(t[q])
  {
    q := p + 1;
    while buf[q] != NUL && IsNameChar(buf[q])
      invariant p < q <= |t|
      invariant NameLength(t[p + 1..]) == q - p - 1 + NameLength(t[q..])
      decreases |t| - q
    {
      assert t[q..][1..] == t[q + 1..];
      q := q + 1;
    }
  }

  lemma NameParts(s: string)
    ensures if s == "" || !IsNameStartChar(s[0]) then ParseName(s) == NoPart
            else var n := 1 + NameLength(s[1..]); ParseName(s) == Part(s[..n], s[n..])
  {
    hide NameLength, IsNameStartChar;
  }

  /** `StrPair::ParseName`. */
  method MarkName(buf: array<char>, p: nat, ghost t: string) returns (r: Marked)
    requires p <= |t| && Shows(buf, t, p)
    ensures r.NoSpan? ==> ParseName(t[p..]).NoPart?
    ensures r.Marked? ==> fresh(r.pair) && r.pair.ValidIn(buf[..]) && r.pair.buf == buf
    ensures r.Marked? ==> p == r.pair.first < r.pair.end == r.at <= |t|
    ensures r.Marked? ==> ParseName(t[p..]) == Part(r.pair.value, t[r.at..])
    ensures r.Marked? && r.at < |t| ==> !IsNameStartChar(t[r.at])
  {
    hide ParseName, Shows, IsNameStartChar;
    NameParts(t[p..]);
    ShownAt(buf, t, p, p);
    if buf[p] == NUL || !IsNameStartChar(buf[p]) {
      return NoSpan;
    }
    var q := NameEnd(buf, p, t);
    assert t[p..][1..] == t[p + 1..] && t[p..][..q - p] == t[p..q] && t[p..][q - p..] == t[q..];
    var pair := Mark(buf, p, q, NONE, t);
    return Marked(pair, q);
  }

  lemma ShownAt(buf: array<char>, t: string, p: nat, q: nat)
    requires p <= q <= |t| && Shows(buf, t, p)
    ensures Shows(buf, t, q) && |t| < buf.Length && (buf[q] == NUL <==> q == |t|)
    ensures q < |t| ==> buf[q] == t[q] == t[q..][0]
  {
  }

  /** Whether the tag stands at q: the first character is compared before the rest. */
  method TagAtIndex(buf: array<char>, q: nat, tag: string, ghost t: string) returns (here: bool)
    requires q < |t| && Shows(buf, t, q) && tag != "" && NUL !in tag
    ensures here <==> tag <= t[q..]
  {
    assert t[q..][0] == t[q];
    if buf[q] != tag[0] {
      return false;
    }
    here := StartsAt(buf, q, tag, t);
  }

  /** The tag does not stand between p and q. */
  ghost predicate Searched(t: string, p: nat, q: nat, tag: string) {
    p <= q <= |t| && FindTag(t[p..], tag, q - p) == FindTag(t[p..], tag, 0)
  }

  lemma SearchStep(t: string, p: nat, q: nat, tag: string)
    requires Searched(t, p, q, tag)
    ensures if q == |t| || tag <= t[q..] then q - p == FindTag(t[p..], tag, 0) else Searched(t, p, q + 1, tag)
  {
    assert t[p..][q - p..] == t[q..];
  }

  /** The search of `StrPair::ParseText`. */
  method FindEnd(buf: array<char>, p: nat, tag: string, ghost t: string) returns (q: nat)
    requires p <= |t| && Shows(buf, t, p) && tag != "" && NUL !in tag
    ensures p <= q <= |t| && q - p == FindTag(t[p..], tag, 0)
  {
    hide FindTag, Shows, Searched;
    q := p;
    ShownAt(buf, t, p, q);
    SearchStart(t, p, tag);
    while buf[q] != NUL
      invariant p <= q <= |t| && |t| < buf.Length && Searched(t, p, q, tag)
      invariant Shows(buf, t, q) && (buf[q] == NUL <==> q == |t|)
      decreases |t| - q
    {
      SearchStep(t, p, q, tag);
      var here := TagAtIndex(buf, q, tag, t);
      if here {
        return;
      }
      q := q + 1;
      ShownAt(buf, t, p, q);
    }
    SearchStep(t, p, q, tag);
  }

  lemma SearchStart(t: string, p: nat, tag: string)
    requires p <= |t|
    ensures Searched(t, p, p, tag)
  {
  }

  lemma TextParts(s: string, tag: string)
    requires tag != ""
    ensures var i := FindTag(s, tag, 0);
            ParseText(s, tag) == if i == |s| then NoPart else Part(s[..i], s[i + |tag|..])
  {
    hide FindTag;
  }

  /** `StrPair::ParseText`. */
  method MarkText(buf: array<char>, p: nat, tag: string, flags: Flags, ghost t: string) returns (r: Marked)
    requires p <= |t| && Shows(buf, t, p) && tag != "" && NUL !in tag
    ensures r.NoSpan? ==> ParseText(t[p..], tag).NoPart?
    ensures r.Marked? ==> fresh(r.pair) && r.pair.ValidIn(buf[..]) && r.pair.buf == buf
    ensures r.Marked? ==> p == r.pair.first <= r.pair.end && r.at == r.pair.end + |tag| <= |t|
    ensures r.Marked? ==> t[r.pair.end] == tag[0]
    ensures r.Marked? ==> var part := ParseText(t[p..], tag);
                          part.Part? && r.pair.value == Value(flags, part.text) && part.rest == t[r.at..]
  {
    hide FindTag, ParseText, Shows, Value;
    TextParts(t[p..], tag);
    var q := FindEnd(buf, p, tag, t);
    ShownAt(buf, t, p, q);
    if buf[q] == NUL {
      return NoSpan;
    }
    assert t[p..][..q - p] == t[p..q] && t[p..][q - p + |tag|..] == t[q + |tag|..];
    assert t[q] == t[p..][q - p..][0];
    var pair := Mark(buf, p, q, flags, t);
    return Marked(pair, q + |tag|);
  }

  // ----- attributes -----

  datatype AttrRead = NoAttr | AttrRead(attribute: Attr, at: nat)

  /** From the end of an attribute's name on: the text from the opening quote on. */
  ghost function QuoteAt(s: string): Option<string> {
    var t := SkipWhiteSpace(s);
    if t == "" || t[0] != '=' then None else
    var u := SkipWhiteSpace(t[1..]);
    if u == "" || (u[0] != '"' && u[0] != '\'') then None else Some(u)
  }

  ghost function ValueAt(name: string, u: string): AttributeResult
    requires u != ""
  {
    match ParseText(u[1..], [u[0]])
    case NoPart => NoAttribute
    case Part(text, rest) => OneAttribute(Attribute(name, Value(TEXT, text)), rest)
  }

  lemma AttributeByParts(s: string)
    ensures ParseAttribute(s) == match ParseName(s)
                                 case NoPart => NoAttribute
                                 case Part(name, rest) =>
                                   if rest == "" || QuoteAt(rest) == None then NoAttribute
                                   else ValueAt(name, QuoteAt(rest).value)
  {
    hide ParseName, ParseText, SkipWhiteSpace, Value;
  }

  method FindQuote(buf: array<char>, p: nat, ghost t: string) returns (r: Option<nat>)
    requires p <= |t| && Shows(buf, t, p)
    ensures r == None ==> QuoteAt(t[p..]) == None
    ensures r.Some? ==> p <= r.value < |t| && QuoteAt(t[p..]) == Some(t[r.value..])
  {
    hide SkipWhiteSpace, Shows;
    var q := SkipInPlace(buf, p, t);
    ShownAt(buf, t, p, q);
    if buf[q] != '=' {
      return None;
    }
    assert t[q..][1..] == t[q + 1..];
    ShownAt(buf, t, p, q + 1);
    q := SkipInPlace(buf, q + 1, t);
    ShownAt(buf, t, p, q);
    if buf[q] != '"' && buf[q] != '\'' {
      return None;
    }
    return Some(q);
  }

  /** From the opening quote on. */
  method MarkValue(buf: array<char>, q: nat, ghost name: string, ghost t: string) returns (r: Marked)
    requires q < |t| && Shows(buf, t, q)
    ensures r.NoSpan? ==> ValueAt(name, t[q..]) == NoAttribute
    ensures r.Marked? ==> fresh(r.pair) && r.pair.ValidIn(buf[..]) && r.pair.buf == buf
    ensures r.Marked? ==> q < r.pair.first <= r.pair.end < r.at <= |t|
    ensures r.Marked? ==> ValueAt(name, t[q..]) == OneAttribute(Attribute(name, r.pair.value), t[r.at..])
  {
    hide ParseText, Shows, Value;
    ShownAt(buf, t, q, q);
    ShownAt(buf, t, q, q + 1);
    assert t[q..][1..] == t[q + 1..];
    r := MarkText(buf, q + 1, [buf[q]], TEXT, t);
  }

  /** `XMLAttribute::ParseDeep`. */
  method ReadAttribute(buf: array<char>, p: nat, ghost t: string) returns (r: AttrRead)
    requires p <= |t| && Shows(buf, t, p)
    ensures r.NoAttr? ==> ParseAttribute(t[p..]).NoAttribute?
    ensures r.AttrRead? ==>
              var Attr(name, value) := r.attribute;
              && p < r.at <= |t| && fresh(name) && fresh(value)
              && name.ValidIn(buf[..]) && value.ValidIn(buf[..]) && Laid([name, value], buf, p, r.at)
              && ParseAttribute(t[p..]) == OneAttribute(Attribute(name.value, value.value), t[r.at..])
  {
    hide ParseAttribute, ParseName, ValueAt, QuoteAt, Shows;
    AttributeByParts(t[p..]);
    var name := MarkName(buf, p, t);
    if name.NoSpan? {
      return NoAttr;
    }
    ShownAt(buf, t, p, name.at);
    if buf[name.at] == NUL {
      return NoAttr;
    }
    var quote := FindQuote(buf, name.at, t);
    if quote == None {
      return NoAttr;
    }
    ShownAt(buf, t, p, quote.value);
    var value := MarkValue(buf, quote.value, name.pair.value, t);
    if value.NoSpan? {
      return NoAttr;
    }
    return AttrRead(Attr(name.pair, value.pair), value.at);
  }

  // ----- reading strings -----

  /** Reading one of the strings laid out in the buffer leaves all of them what they are. */
  method Read(p: StrPair, buf: array<char>, ghost ps: seq<StrPair>, ghost lo: nat, ghost hi: nat) returns (at: nat)
    requires p in ps && Laid(ps, buf, lo, hi) && AllIn(ps, buf[..])
    modifies p, buf
    ensures AllIn(ps, buf[..]) && !p.flush && at == p.start && Reads(buf[..], at, p.value, p.end)
    ensures forall k :: 0 <= k < buf.Length && !(lo <= k < hi) ==> buf[k] == old(buf[k])
  {
    ghost var was := buf[..];
    ghost var i :| 0 <= i < |ps| && ps[i] == p;
    at := p.GetStr();
    OthersStay(ps, i, buf, lo, hi, was, buf[..]);
  }

  lemma OthersStay(ps: seq<StrPair>, i: nat, buf: array<char>, lo: nat, hi: nat, was: string, now: string)
    requires Laid(ps, buf, lo, hi) && |was| == |now|
    requires i < |ps| && ps[i].ValidIn(now)
    requires forall j :: 0 <= j < |ps| && ps[j] != ps[i] ==> ps[j].ValidIn(was)
    requires forall k :: 0 <= k < |was| && !(ps[i].first <= k <= ps[i].end) ==> was[k] == now[k]
    ensures AllIn(ps, now)
  {
    forall j | 0 <= j < |ps|
      ensures ps[j].ValidIn(now)
    {
      if ps[j] != ps[i] {
        StaysValid(ps[j], was, now);
      }
    }
  }

  /** `StringEqual` on two C strings of the buffer. */
  method StringEqual(buf: array<char>, x: nat, y: nat, ghost v: string, ghost w: string, ghost m: nat, ghost n: nat)
    returns (equal: bool)
    requires Reads(buf[..], x, v, m) && Reads(buf[..], y, w, n)
    ensures equal <==> v == w
  {
    var i := 0;
    assert forall k :: 0 <= k < |v| ==> buf[x + k] == v[k] != NUL;
    assert forall k :: 0 <= k < |w| ==> buf[y + k] == w[k] != NUL;
    while buf[x + i] == buf[y + i] && buf[x + i] != NUL
      invariant 0 <= i <= |v| && i <= |w| && v[..i] == w[..i]
      decreases |v| - i
    {
      i := i + 1;
    }
    assert i == |v| ==> v[..i] == v;
    assert i == |w| ==> w[..i] == w;
    return buf[x + i] == buf[y + i];
  }

  ghost predicate NamesIn(attributes: seq<Attr>, ps: seq<StrPair>) {
    forall i :: 0 <= i < |attributes| ==> attributes[i].name in ps
  }

  lemma NoName(attributes: seq<Attr>, name: string)
    requires forall i :: 0 <= i < |attributes| ==> attributes[i].name.value != name
    ensures !HasAttribute(AttributesOf(attributes), name)
  {
  }

  /** `XMLElement::Attribute`: searches the list by name, reading the names it meets. */
  method FindAttribute(buf: array<char>, attributes: seq<Attr>, name: StrPair,
                       ghost ps: seq<StrPair>, ghost lo: nat, ghost hi: nat)
    returns (found: bool)
    requires Laid(ps, buf, lo, hi) && AllIn(ps, buf[..]) && name in ps && NamesIn(attributes, ps)
    modifies ps, buf
    ensures AllIn(ps, buf[..])
    ensures found <==> HasAttribute(AttributesOf(attributes), name.value)
    ensures forall k :: 0 <= k < buf.Length && !(lo <= k < hi) ==> buf[k] == old(buf[k])
  {
    hide Laid, AllIn, Reads, HasAttribute;
    var at := Read(name, buf, ps, lo, hi);
    var i := 0;
    while i < |attributes|
      invariant 0 <= i <= |attributes| && AllIn(ps, buf[..])
      invariant !name.flush && name.start == at
      invariant forall j :: 0 <= j < i ==> attributes[j].name.value != name.value
      invariant forall k :: 0 <= k < buf.Length && !(lo <= k < hi) ==> buf[k] == old(buf[k])
    {
      var a := attributes[i].name;
      var x := Read(a, buf, ps, lo, hi);
      OneIn(ps, name, buf[..]);
      var equal := StringEqual(buf, x, name.start, a.value, name.value, a.end, name.end);
      if equal {
        HasName(attributes, i);
        return true;
      }
      i := i + 1;
    }
    NoName(attributes, name.value);
    return false;
  }

  lemma HasName(attributes: seq<Attr>, i: nat)
    requires i < |attributes|
    ensures HasAttribute(AttributesOf(attributes), attributes[i].name.value)
  {
    assert AttributesOf(attributes)[i] in AttributesOf(attributes);
  }

  lemma OneIn(ps: seq<StrPair>, p: StrPair, s: string)
    requires AllIn(ps, s) && p in ps && !p.flush
    ensures Reads(s, p.start, p.value, p.end)
  {
  }

  // ----- tags -----

  ghost function AttributeOf(a: Attr): Attribute { Attribute(a.name.value, a.value.value) }

  /** Reads one attribute behind the others of its tag and looks for its name among them. */
  method AddAttribute(buf: array<char>, attributes: seq<Attr>, ghost ps: seq<StrPair>, q: nat, ghost lo: nat,
                      ghost t: string)
    returns (r: AttrRead)
    requires lo <= q <= |t| && Shows(buf, t, q)
    requires ps == AttrPairs(attributes) && Laid(ps, buf, lo, q) && AllIn(ps, buf[..])
    modifies ps, buf
    ensures forall k :: 0 <= k < buf.Length && k < lo ==> buf[k] == old(buf[k])
    ensures r.NoAttr? ==> var read := ParseAttribute(t[q..]);
                          read.OneAttribute? ==> HasAttribute(AttributesOf(attributes), read.attribute.name)
    ensures r.AttrRead? ==>
              && q < r.at <= |t| && Shows(buf, t, r.at) && fresh(r.attribute.name) && fresh(r.attribute.value)
              && Laid(AttrPairs(attributes + [r.attribute]), buf, lo, r.at)
              && AllIn(AttrPairs(attributes + [r.attribute]), buf[..])
              && ParseAttribute(t[q..]) == OneAttribute(AttributeOf(r.attribute), t[r.at..])
              && !HasAttribute(AttributesOf(attributes), r.attribute.name.value)
  {
    hide ParseAttribute, HasAttribute, AttrPairs, AttributesOf, Laid, AllIn;
    ghost var was := buf[..];
    r := ReadAttribute(buf, q, t);
    assert buf[..] == was;
    if r.NoAttr? {
      return;
    }
    ghost var own := [r.attribute.name, r.attribute.value];
    OneMoreAttr(attributes, r.attribute);
    LaidConcat(ps, own, buf, lo, q, r.at);
    BothIn(r.attribute.name, r.attribute.value, buf[..]);
    AllConcat(ps, own, buf[..]);
    NamesAreIn(attributes, own);
    assert r.attribute.name in own;
    var duplicate := FindAttribute(buf, attributes, r.attribute.name, ps + own, lo, r.at);
    if duplicate {
      r := NoAttr;
    }
  }

  lemma BothIn(p: StrPair, q: StrPair, s: string)
    requires p.ValidIn(s) && q.ValidIn(s)
    ensures AllIn([p, q], s)
  {
  }

  lemma {:induction false} NamesAreIn(attributes: seq<Attr>, more: seq<StrPair>)
    ensures NamesIn(attributes, AttrPairs(attributes) + more)
    decreases |attributes|
  {
    if attributes != [] {
      var n := |attributes| - 1;
      var own := [attributes[n].name, attributes[n].value];
      NamesAreIn(attributes[..n], own + more);
      assert AttrPairs(attributes) + more == AttrPairs(attributes[..n]) + (own + more);
      assert own[0] in own + more;
      assert forall i :: 0 <= i < n ==> attributes[..n][i] == attributes[i];
    }
  }

  datatype TagRead = TagRefused(error: Error) | TagRead(attributes: seq<Attr>, sealed: bool, at: nat)

  lemma TagGoesOn(s: string, attributes: seq<Attribute>)
    ensures ParseAttributes(s, attributes) == TagAt(SkipWhiteSpace(s), attributes)
  {
    hide ParseAttribute, HasAttribute, SkipWhiteSpace, IsNameStartChar;
  }

  /** `XMLElement::ParseAttributes`. */
  method ReadAttributes(buf: array<char>, p: nat, ghost t: string) returns (r: TagRead)
    requires p <= |t| && Shows(buf, t, p) && (p < |t| ==> !IsNameStartChar(t[p]))
    modifies buf
    ensures forall k :: 0 <= k < buf.Length && k <= p ==> buf[k] == old(buf[k])
    ensures r.TagRefused? ==> ParseAttributes(t[p..], []) == TagFailed(r.error)
    ensures r.TagRead? ==>
              && p < r.at <= |t| && Shows(buf, t, r.at)
              && ParseAttributes(t[p..], []) == Tag(AttributesOf(r.attributes), r.sealed, t[r.at..])
              && Laid(AttrPairs(r.attributes), buf, p + 1, r.at) && AllIn(AttrPairs(r.attributes), buf[..])
              && fresh(AttrPairs(r.attributes))
  {
    hide ParseAttribute, ParseAttributes, HasAttribute, AttributesOf, Laid, AllIn, SkipWhiteSpace, IsNameStartChar,
      AttrPairs, Shows;
    var q := p;
    var attributes: seq<Attr> := [];
    ghost var ps: seq<StrPair> := [];
    NothingLaid(buf, p + 1, q);
    while true
      invariant p <= q <= |t| && Shows(buf, t, q)
      invariant ParseAttributes(t[q..], AttributesOf(attributes)) == ParseAttributes(t[p..], [])
      invariant ps == AttrPairs(attributes) && Laid(ps, buf, p + 1, q) && AllIn(ps, buf[..]) && fresh(ps)
      invariant forall k :: 0 <= k < buf.Length && k <= p ==> buf[k] == old(buf[k])
      decreases |t| - q
    {
      ghost var from := q;
      q := SkipInPlace(buf, q, t);
      TagGoesOn(t[from..], AttributesOf(attributes));
      LaidUpTo(ps, buf, p + 1, from, q);
      ShownAt(buf, t, from, q);
      if buf[q] == NUL {
        return TagRefused(ParsingElement);
      }
      if q + 1 <= |t| {
        ShownAt(buf, t, q, q + 1);
        NextCharacter(t, q);
      }
      if IsNameStartChar(buf[q]) {
        var a := AddAttribute(buf, attributes, ps, q, p + 1, t);
        if a.NoAttr? {
          return TagRefused(ParsingAttribute);
        }
        OneMoreAttr(attributes, a.attribute);
        ps := ps + [a.attribute.name, a.attribute.value];
        q, attributes := a.at, attributes + [a.attribute];
      } else if buf[q] == '>' {
        LaidUpTo(ps, buf, p + 1, q, q + 1);
        return TagRead(attributes, false, q + 1);
      } else if buf[q] == '/' && buf[q + 1] == '>' {
        ShownAt(buf, t, q, q + 2);
        LaidUpTo(ps, buf, p + 1, q, q + 2);
        return TagRead(attributes, true, q + 2);
      } else {
        return TagRefused(ParsingElement);
      }
    }
  }

  lemma NextCharacter(t: string, q: nat)
    requires q < |t|
    ensures t[q..][1..] == t[q + 1..] && ("/>" <= t[q..] <==> t[q] == '/' && q + 1 < |t| && t[q + 1] == '>')
    ensures q + 1 < |t| ==> t[q..][2..] == t[q + 2..]
  {
  }

  lemma NothingLaid(buf: array<char>, lo: nat, hi: nat)
    ensures Laid([], buf, lo, hi) && AllIn([], buf[..]) && AttrPairs([]) == [] && AttributesOf([]) == []
  {
  }

  lemma LaidUpTo(ps: seq<StrPair>, buf: array<char>, lo: nat, mid: nat, hi: nat)
    requires Laid(ps, buf, lo, mid) && mid <= hi
    ensures Laid(ps, buf, lo, hi)
  {
  }

  // ----- nodes -----

  /** A node read, or the closing tag of an enclosing element, read like an element. */
  datatype NodeRead =
    | NoTree
    | TreeFailed(error: Error)
    | OneTree(tree: Tree, closing: Closing, endTag: Option<StrPair>, at: nat)

  ghost function ValueOf(pair: Option<StrPair>): Option<string> {
    match pair case None => None case Some(p) => Some(p.value)
  }

  /** What was read is what the grammar reads. */
  ghost predicate Agrees(r: NodeRead, g: NodeResult, t: string) {
    match r
    case NoTree => g.NoNode?
    case TreeFailed(e) => g == NodeFailed(e)
    case OneTree(tree, closing, endTag, at) =>
      at <= |t| && g == OneNode(NodeOf(tree), closing, ValueOf(endTag), t[at..])
  }

  ghost function EndOf(endTag: Option<StrPair>): seq<StrPair> {
    if endTag == None then [] else [endTag.value]
  }

  ghost function StringsOf(r: NodeRead): seq<StrPair> {
    if r.OneTree? then PairsOf(r.tree) + EndOf(r.endTag) else []
  }

  /** Text ends at the '<' of what follows, which its terminator will overwrite. */
  ghost function LimitOf(r: NodeRead): nat
    requires r.OneTree?
  {
    if r.tree.TextTree? then r.at + 1 else r.at
  }

  /** The strings of what was read lie between lo and the text still to be read. */
  ghost predicate Sound(r: NodeRead, buf: array<char>, lo: nat, t: string)
    reads StringsOf(r), buf
  {
    r.OneTree? ==>
      && r.at <= |t| && Shows(buf, t, r.at)
      && Laid(StringsOf(r), buf, lo, LimitOf(r)) && AllIn(StringsOf(r), buf[..])
      && (r.tree.TextTree? ==> r.at < |t| && t[r.at] == '<')
  }

  /** Where the strings of what stands at p begin at the earliest. */
  ghost function Floor(t: string, p: nat): nat { if p < |t| && t[p] == '<' then p + 1 else p }

  /** The nodes whose `ParseDeep` is `ParseText` up to a fixed tag. */
  method ReadLeaf(buf: array<char>, p: nat, kind: LeafKind, ghost t: string) returns (r: NodeRead)
    requires p <= |t| && Shows(buf, t, p)
    ensures Agrees(r, ParseLeaf(t[p..], kind), t) && Sound(r, buf, p, t) && fresh(StringsOf(r))
    ensures r.OneTree? ==> p < r.at && !r.tree.TextTree? && !r.tree.ElementTree?
  {
    hide ParseText, Value;
    var value := MarkText(buf, p, kind.EndTag(), NEWLINES, t);
    if value.NoSpan? {
      return TreeFailed(kind.Failure());
    }
    ShownAt(buf, t, p, value.at);
    OneLaid(value.pair, buf, p, value.at);
    return OneTree(LeafTree(kind, value.pair), Open, None, value.at);
  }

  lemma OneLaid(p: StrPair, buf: array<char>, lo: nat, hi: nat)
    requires p.ValidIn(buf[..]) && p.buf == buf && lo <= p.first && p.end < hi
    ensures Laid([p] + [], buf, lo, hi) && AllIn([p] + [], buf[..])
  {
  }

  /** `XMLText::ParseDeep`. */
  method ReadText(buf: array<char>, p: nat, ghost t: string) returns (r: NodeRead)
    requires p <= |t| && Shows(buf, t, p)
    ensures Agrees(r, TextAt(t[p..]), t) && Sound(r, buf, p, t) && fresh(StringsOf(r))
    ensures r.OneTree? ==> p <= r.at < |t| && t[r.at] == '<'
  {
    hide ParseText, Value;
    var value := MarkText(buf, p, "<", TEXT, t);
    if value.NoSpan? {
      return TreeFailed(ParsingText);
    }
    ShownAt(buf, t, p, value.at);
    if buf[value.at] == NUL {
      return TreeFailed(Parsing);
    }
    var at := value.at - 1;
    ShownAt(buf, t, p, at);
    OneLaid(value.pair, buf, p, at + 1);
    assert t[at..] == "<" + t[value.at..];
    return OneTree(TextTree(value.pair), Open, None, at);
  }

  /** The headers `Identify` looks for. */
  method IdentifyLeaf(buf: array<char>, p: nat, ghost t: string) returns (k: Option<LeafKind>)
    requires p <= |t| && Shows(buf, t, p)
    ensures k == LeafAt(t[p..])
  {
    hide Shows;
    var xml := StartsAt(buf, p, "<?", t);
    if xml {
      return Some(DeclarationLeaf);
    }
    var comment := StartsAt(buf, p, "<!--", t);
    if comment {
      return Some(CommentLeaf);
    }
    var cdata := StartsAt(buf, p, "<![CDATA[", t);
    if cdata {
      return Some(CDataLeaf);
    }
    var dtd := StartsAt(buf, p, "<!", t);
    return if dtd then Some(UnknownLeaf) else None;
  }

  /** `Identify` and the `ParseDeep` of the node it makes. */
  method ReadNode(buf: array<char>, p: nat, docEmpty: bool, ghost t: string) returns (r: NodeRead)
    requires p <= |t| && Shows(buf, t, p)
    modifies buf
    ensures Agrees(r, ParseNode(t[p..], docEmpty), t) && Sound(r, buf, Floor(t, p), t) && fresh(StringsOf(r))
    ensures r.OneTree? ==> p < r.at
    ensures forall k :: 0 <= k < buf.Length && k < Floor(t, p) ==> buf[k] == old(buf[k])
    decreases |t| - p, 1
  {
    hide Agrees, Sound, StringsOf, ParseNode, ParseElement, ParseLeaf, TextAt, LeafAt, SkipWhiteSpace;
    NodeGoesOn(t[p..], docEmpty);
    var q := SkipInPlace(buf, p, t);
    ShownAt(buf, t, p, q);
    Skipped(t, p, q);
    if buf[q] == NUL {
      NothingRead(buf, Floor(t, p), t);
      return NoTree;
    }
    var kind := IdentifyLeaf(buf, q, t);
    if kind.Some? {
      var h := |kind.value.Header()|;
      HeaderThere(t, q, kind.value);
      ShownAt(buf, t, p, q + h);
      assert t[q..][h..] == t[q + h..];
      r := ReadLeaf(buf, q + h, kind.value, t);
      SoundFrom(r, buf, q + h, Floor(t, p), t);
    } else if buf[q] == '<' {
      ShownAt(buf, t, p, q + 1);
      assert t[q..][1..] == t[q + 1..];
      r := ReadElement(buf, q + 1, docEmpty, t);
      SoundFrom(r, buf, q + 1, Floor(t, p), t);
    } else {
      r := ReadText(buf, p, t);
    }
  }

  lemma NothingRead(buf: array<char>, lo: nat, t: string)
    ensures StringsOf(NoTree) == [] && Sound(NoTree, buf, lo, t) && Agrees(NoTree, NoNode, t)
  {
  }

  lemma SoundFrom(r: NodeRead, buf: array<char>, mid: nat, lo: nat, t: string)
    requires Sound(r, buf, mid, t) && lo <= mid
    ensures Sound(r, buf, lo, t)
  {
  }

  lemma HeaderThere(t: string, q: nat, kind: LeafKind)
    requires q <= |t| && LeafAt(t[q..]) == Some(kind)
    ensures q + |kind.Header()| <= |t| && |kind.Header()| > 0 && t[q] == '<'
  {
    assert t[q] == t[q..][0] == kind.Header()[0];
  }

  lemma Skipped(t: string, p: nat, q: nat)
    requires p <= q <= |t| && t[q..] == SkipWhiteSpace(t[p..])
    ensures p < |t| && t[p] == '<' ==> q == p
    ensures q < |t| && t[q] != '<' ==> t[p] != '<' && Floor(t, p) == p
  {
    if p < |t| {
      FirstCharacter(t[p..]);
    }
  }

  lemma NodeGoesOn(s: string, docEmpty: bool)
    ensures ParseNode(s, docEmpty) == NodeAt(s, SkipWhiteSpace(s), docEmpty)
  {
    hide ParseElement, ParseLeaf, ParseText, LeafAt, SkipWhiteSpace, Value;
  }

  // ----- elements -----

  /** Name and attributes of an element, with the character that ends its opening tag. */
  datatype HeadRead =
    | HeadFailed(error: Error)
    | HeadRead(name: StrPair, attributes: seq<Attr>, closing: bool, sealed: bool, at: nat)

  ghost function HeadStrings(h: HeadRead): seq<StrPair> {
    if h.HeadRead? then [h.name] + AttrPairs(h.attributes) else []
  }

  method SkipSlash(buf: array<char>, p: nat, ghost docEmpty: bool, ghost t: string) returns (q: nat, closing: bool)
    requires p <= |t| && Shows(buf, t, p)
    ensures p <= q <= |t| && ParseElement(t[p..], docEmpty) == ElementAt(t[q..], closing, docEmpty)
  {
    hide ParseName, ParseAttributes, ParseContent, SkipWhiteSpace, Shows;
    q := SkipInPlace(buf, p, t);
    ShownAt(buf, t, p, q);
    closing := buf[q] == '/';
    if closing {
      assert t[q..][1..] == t[q + 1..];
      q := q + 1;
    }
  }

  method ReadHead(buf: array<char>, p: nat, ghost docEmpty: bool, ghost t: string)
    returns (h: HeadRead, ghost ps: seq<StrPair>)
    requires p <= |t| && Shows(buf, t, p)
    modifies buf
    ensures ps == HeadStrings(h) && fresh(ps)
    ensures h.HeadFailed? ==> ParseElement(t[p..], docEmpty) == NodeFailed(h.error)
    ensures h.HeadRead? ==>
              && p < h.at <= |t| && Shows(buf, t, h.at) && Laid(ps, buf, p, h.at) && AllIn(ps, buf[..])
              && ParseElement(t[p..], docEmpty)
                 == ParseContent(h.name.value, h.closing, AttributesOf(h.attributes), h.sealed, t[h.at..], docEmpty)
    ensures forall k :: 0 <= k < buf.Length && k < p ==> buf[k] == old(buf[k])
  {
    hide ParseName, ParseAttributes, ParseContent, ParseElement, AttrPairs, AttributesOf, Laid, AllIn, Shows, Value,
      Reads;
    ps := [];
    var q, closing := SkipSlash(buf, p, docEmpty, t);
    ShownAt(buf, t, p, q);
    var name := MarkName(buf, q, t);
    if name.NoSpan? {
      return HeadFailed(Parsing), ps;
    }
    ShownAt(buf, t, p, name.at);
    ghost var was := buf[..];
    var tag := ReadAttributes(buf, name.at, t);
    if tag.TagRefused? {
      return HeadFailed(tag.error), ps;
    }
    StaysValid(name.pair, was, buf[..]);
    HeadLaid(name.pair, AttrPairs(tag.attributes), buf, p, name.at, tag.at);
    h := HeadRead(name.pair, tag.attributes, closing, tag.sealed, tag.at);
    ps := HeadStrings(h);
  }

  lemma HeadLaid(name: StrPair, ps: seq<StrPair>, buf: array<char>, lo: nat, mid: nat, hi: nat)
    requires name.ValidIn(buf[..]) && name.buf == buf && lo <= name.first && name.end == mid < hi
    requires Laid(ps, buf, mid + 1, hi) && AllIn(ps, buf[..])
    ensures Laid([name] + ps, buf, lo, hi) && AllIn([name] + ps, buf[..])
  {
  }

  /** `XMLElement::ParseDeep`. */
  method ReadElement(buf: array<char>, p: nat, docEmpty: bool, ghost t: string) returns (r: NodeRead)
    requires p <= |t| && Shows(buf, t, p)
    modifies buf
    ensures Agrees(r, ParseElement(t[p..], docEmpty), t) && Sound(r, buf, p, t) && fresh(StringsOf(r))
    ensures r.OneTree? ==> p < r.at && r.tree.ElementTree?
    ensures forall k :: 0 <= k < buf.Length && k < p ==> buf[k] == old(buf[k])
    decreases |t| - p, 0
  {
    hide ParseElement, ParseContent, Laid, AllIn, HeadStrings;
    var h, ps := ReadHead(buf, p, docEmpty, t);
    if h.HeadFailed? {
      return TreeFailed(h.error);
    }
    ghost var more;
    r, more := ReadContent(buf, h, ps, p, docEmpty, t);
  }

  /** What follows name and attributes: nothing, or children and the closing tag they met. */
  method ReadContent(buf: array<char>, h: HeadRead, ghost ps: seq<StrPair>, ghost lo: nat, docEmpty: bool,
                     ghost t: string)
    returns (r: NodeRead, ghost more: seq<StrPair>)
    requires h.HeadRead? && lo <= h.at <= |t| && Shows(buf, t, h.at)
    requires ps == HeadStrings(h) && Laid(ps, buf, lo, h.at) && AllIn(ps, buf[..])
    modifies buf
    ensures var rest := t[h.at..];
            Agrees(r, ParseContent(h.name.value, h.closing, AttributesOf(h.attributes), h.sealed, rest, docEmpty), t)
    ensures r.OneTree? ==> h.at <= r.at && r.tree.ElementTree? && StringsOf(r) == ps + more
    ensures fresh(more) && Sound(r, buf, lo, t)
    ensures forall k :: 0 <= k < buf.Length && k < h.at ==> buf[k] == old(buf[k])
    decreases |t| - h.at, 4
  {
    hide ParseContent, ParseList, Laid, AllIn, HeadStrings, AttributesOf, ListStrings;
    more := [];
    ContentGoesOn(h.name.value, h.closing, AttributesOf(h.attributes), h.sealed, t[h.at..], docEmpty);
    ShownAt(buf, t, h.at, h.at);
    if h.sealed || h.closing || buf[h.at] == NUL {
      r := OneTree(ElementTree(h.name, h.attributes, []),
                   if h.sealed then Sealed else if h.closing then Close else Open, None, h.at);
      Childless(h);
      return;
    }
    ghost var was := buf[..];
    var list := ReadList(buf, h.at, docEmpty, false, t);
    if list.ListFailed? {
      return TreeFailed(list.error), more;
    }
    if list.ListAtEnd? {
      return TreeFailed(Parsing), more;
    }
    more := ListStrings(list);
    AllStay(ps, buf, lo, h.at, was, buf[..]);
    LaidConcat(ps, more, buf, lo, h.at, list.at);
    AllConcat(ps, more, buf[..]);
    r := OneTree(ElementTree(h.name, h.attributes, list.trees), Open, Some(list.endTag), list.at);
    WithChildren(h, list, r);
  }

  lemma Childless(h: HeadRead)
    requires h.HeadRead?
    ensures PairsOf(ElementTree(h.name, h.attributes, [])) + [] == HeadStrings(h)
    ensures NodeOf(ElementTree(h.name, h.attributes, [])) == Element(h.name.value, AttributesOf(h.attributes), [])
  {
    hide AttributesOf, AttrPairs;
  }

  lemma WithChildren(h: HeadRead, list: ListRead, r: NodeRead)
    requires h.HeadRead? && list.ListClosed?
    requires r == OneTree(ElementTree(h.name, h.attributes, list.trees), Open, Some(list.endTag), list.at)
    ensures StringsOf(r) == HeadStrings(h) + ListStrings(list)
    ensures NodeOf(r.tree) == Element(h.name.value, AttributesOf(h.attributes), NodesOf(list.trees))
  {
    hide AttributesOf, AttrPairs, TreePairs, NodesOf;
  }

  lemma ContentGoesOn(name: string, closing: bool, attributes: seq<Attribute>, sealed: bool, s: string, docEmpty: bool)
    ensures ParseContent(name, closing, attributes, sealed, s, docEmpty) ==
            if sealed || closing || s == "" then
              OneNode(Element(name, attributes, []), if sealed then Sealed else if closing then Close else Open, None,
                      s)
            else ContentAt(name, attributes, ParseList(s, [], docEmpty, false))
  {
    hide ParseList;
  }

  // ----- lists of siblings -----

  datatype ListRead =
    | ListFailed(error: Error)
    | ListAtEnd(trees: seq<Tree>)
    | ListClosed(trees: seq<Tree>, endTag: StrPair, at: nat)

  ghost function ListStrings(r: ListRead): seq<StrPair> {
    match r
    case ListFailed(_) => []
    case ListAtEnd(trees) => TreePairs(trees)
    case ListClosed(trees, endTag, _) => TreePairs(trees) + [endTag]
  }

  ghost predicate ListAgrees(r: ListRead, g: ListResult, t: string) {
    match r
    case ListFailed(e) => g == Failed(e)
    case ListAtEnd(trees) => g == AtEnd(NodesOf(trees))
    case ListClosed(trees, endTag, at) => at <= |t| && g == Closed(NodesOf(trees), endTag.value, t[at..])
  }

  ghost predicate ListSound(r: ListRead, buf: array<char>, lo: nat, t: string)
    reads ListStrings(r), buf
  {
    && AllIn(ListStrings(r), buf[..])
    && Laid(ListStrings(r), buf, lo, if r.ListClosed? then r.at else |t| + 1)
    && (r.ListClosed? ==> r.at <= |t| && Shows(buf, t, r.at))
  }

  /** Whether an element lacks its closing tag or met that of another: reads both names. */
  method TagsDiffer(buf: array<char>, node: NodeRead, ghost ps: seq<StrPair>, ghost lo: nat, ghost hi: nat)
    returns (mismatch: bool)
    requires node.OneTree? && node.tree.ElementTree?
    requires Laid(ps, buf, lo, hi) && AllIn(ps, buf[..])
    requires node.tree.name in ps && (node.endTag.Some? ==> node.endTag.value in ps)
    modifies ps, buf
    ensures AllIn(ps, buf[..])
    ensures mismatch <==> Mismatch(node.tree.name.value, node.closing, ValueOf(node.endTag))
    ensures forall k :: 0 <= k < buf.Length && !(lo <= k < hi) ==> buf[k] == old(buf[k])
  {
    hide Laid, AllIn, Reads;
    if node.endTag.None? {
      return node.closing == Open;
    }
    if node.closing != Open {
      return true;
    }
    var end, name := node.endTag.value, node.tree.name;
    var x := Read(end, buf, ps, lo, hi);
    var y := Read(name, buf, ps, lo, hi);
    OneIn(ps, end, buf[..]);
    var equal := StringEqual(buf, end.start, y, end.value, name.value, end.end, name.end);
    return !equal;
  }

  /** What one round of the loop over siblings comes to. */
  datatype Round = Ends | Refused(error: Error) | Closes(name: StrPair, at: nat) | Adds(tree: Tree, at: nat)

  /** The list after a round. */
  ghost function ListAfter(r: Round, nodes: seq<Node>, docEmpty: bool, top: bool, t: string): ListResult {
    match r
    case Ends => AtEnd(nodes)
    case Refused(e) => Failed(e)
    case Closes(name, at) => if at <= |t| then Closed(nodes, name.value, t[at..]) else AtEnd(nodes)
    case Adds(tree, at) =>
      if at <= |t| then ParseList(t[at..], nodes + [NodeOf(tree)], docEmpty && !top, top) else AtEnd(nodes)
  }

  lemma ListGoesOn(s: string, nodes: seq<Node>, docEmpty: bool, top: bool)
    ensures ParseList(s, nodes, docEmpty, top) ==
            if s == "" then AtEnd(nodes) else ListAt(ParseNode(s, docEmpty), nodes, docEmpty, top)
  {
    hide ParseNode, Mismatch;
  }

  /** The strings of a round lie between lo and the text behind it. */
  ghost predicate Placed(r: Round, own: seq<StrPair>, buf: array<char>, lo: nat, t: string)
    reads own, buf
  {
    && AllIn(own, buf[..])
    && (r.Closes? ==> own == [r.name] && r.at <= |t| && Laid(own, buf, lo, r.at) && Shows(buf, t, r.at))
    && (r.Adds? ==>
          own == PairsOf(r.tree) && r.at <= |t| && Laid(own, buf, lo, Floor(t, r.at)) && Shows(buf, t, r.at))
  }

  lemma NothingPlaced(r: Round, buf: array<char>, lo: nat, t: string)
    requires r.Ends? || r.Refused?
    ensures Placed(r, [], buf, lo, t)
  {
  }

  lemma TreePlaced(node: NodeRead, buf: array<char>, lo: nat, t: string)
    requires node.OneTree? && Sound(node, buf, lo, t)
    ensures Placed(Adds(node.tree, node.at), PairsOf(node.tree), buf, lo, t)
    ensures PairsOf(node.tree) <= StringsOf(node)
  {
    hide PairsOf;
    OwnStrings(node, buf, lo, LimitOf(node));
    LaidUpTo(PairsOf(node.tree), buf, lo, LimitOf(node), Floor(t, node.at));
  }

  lemma NamePlaced(node: NodeRead, buf: array<char>, lo: nat, t: string)
    requires node.OneTree? && node.tree.ElementTree? && Sound(node, buf, lo, t)
    ensures Placed(Closes(node.tree.name, node.at), [node.tree.name], buf, lo, t)
    ensures [node.tree.name] <= StringsOf(node)
  {
    hide PairsOf;
    OwnStrings(node, buf, lo, LimitOf(node));
  }

  /** A closing tag is handed up; an element with its own closing tag becomes a child. */
  method PlaceElement(buf: array<char>, node: NodeRead, ghost lo: nat, ghost t: string) returns (r: Round)
    requires node.OneTree? && node.tree.ElementTree? && Sound(node, buf, lo, t)
    modifies StringsOf(node), buf
    ensures Sound(node, buf, lo, t)
    ensures r == if node.closing == Close then Closes(node.tree.name, node.at)
                 else if Mismatch(node.tree.name.value, node.closing, ValueOf(node.endTag))
                 then Refused(MismatchedElement)
                 else Adds(node.tree, node.at)
    ensures forall k :: 0 <= k < buf.Length && k < lo ==> buf[k] == old(buf[k])
  {
    hide PairsOf, Mismatch, Laid, AllIn;
    if node.closing == Close {
      return Closes(node.tree.name, node.at);
    }
    OwnStrings(node, buf, lo, node.at);
    var mismatch := TagsDiffer(buf, node, StringsOf(node), lo, node.at);
    return if mismatch then Refused(MismatchedElement) else Adds(node.tree, node.at);
  }

  method ReadSibling(buf: array<char>, q: nat, docEmpty: bool, ghost nodes: seq<Node>, ghost top: bool, ghost t: string)
    returns (r: Round, ghost own: seq<StrPair>)
    requires q < |t| && Shows(buf, t, q)
    modifies buf
    ensures ParseList(t[q..], nodes, docEmpty, top) == ListAfter(r, nodes, docEmpty, top, t)
    ensures forall k :: 0 <= k < buf.Length && k < Floor(t, q) ==> buf[k] == old(buf[k])
    ensures Placed(r, own, buf, Floor(t, q), t)
    ensures fresh(own)
    ensures r.Closes? || r.Adds? ==> q < r.at
    decreases |t| - q, 2
  {
    hide ParseList, ParseNode, Mismatch, Placed, StringsOf, Sound, PairsOf;
    own := [];
    ListGoesOn(t[q..], nodes, docEmpty, top);
    var node := ReadNode(buf, q, docEmpty, t);
    if node.NoTree? {
      r := Ends;
    } else if node.TreeFailed? {
      r := Refused(node.error);
    } else if node.tree.LeafTree? && node.tree.kind.DeclarationLeaf? && !docEmpty {
      r := Refused(ParsingDeclaration);
    } else {
      r := Adds(node.tree, node.at);
      if node.tree.ElementTree? {
        r := PlaceElement(buf, node, Floor(t, q), t);
      }
      if r.Closes? {
        own := [node.tree.name];
        NamePlaced(node, buf, Floor(t, q), t);
      } else if r.Adds? {
        own := PairsOf(node.tree);
        TreePlaced(node, buf, Floor(t, q), t);
        assert forall i :: 0 <= i < |own| ==> own[i] == StringsOf(node)[i];
      }
    }
    if r.Ends? || r.Refused? {
      NothingPlaced(r, buf, Floor(t, q), t);
    }
  }

  /** Of the strings of what was read, those of the tree, the name and the closing tag. */
  lemma OwnStrings(node: NodeRead, buf: array<char>, lo: nat, hi: nat)
    requires node.OneTree? && Laid(StringsOf(node), buf, lo, hi) && AllIn(StringsOf(node), buf[..])
    ensures Laid(PairsOf(node.tree), buf, lo, hi) && AllIn(PairsOf(node.tree), buf[..])
    ensures node.endTag.Some? ==> node.endTag.value in StringsOf(node)
    ensures node.tree.ElementTree? ==>
              && [node.tree.name] <= StringsOf(node) && node.tree.name in StringsOf(node)
              && Laid([node.tree.name], buf, lo, hi) && AllIn([node.tree.name], buf[..])
  {
    hide Laid, AllIn, AttrPairs, TreePairs;
    var ps, end := PairsOf(node.tree), EndOf(node.endTag);
    FirstPart(ps, end, buf, lo, hi);
    if node.endTag.Some? {
      assert node.endTag.value in end;
    }
    if node.tree.ElementTree? {
      var name, rest := [node.tree.name], AttrPairs(node.tree.attributes) + TreePairs(node.tree.children);
      FirstPart(name, rest, buf, lo, hi);
      assert node.tree.name in name;
      assert StringsOf(node) == name + (rest + end);
    }
  }

  lemma FirstPart(x: seq<StrPair>, y: seq<StrPair>, buf: array<char>, lo: nat, hi: nat)
    requires Laid(x + y, buf, lo, hi) && AllIn(x + y, buf[..])
    ensures Laid(x, buf, lo, hi) && AllIn(x, buf[..])
  {
    assert forall i :: 0 <= i < |x| ==> (x + y)[i] == x[i];
  }

  /** The loop of `XMLNode::ParseDeep`. */
  method ReadList(buf: array<char>, p: nat, docEmpty: bool, top: bool, ghost t: string) returns (r: ListRead)
    requires p <= |t| && Shows(buf, t, p)
    modifies buf
    ensures ListAgrees(r, ParseList(t[p..], [], docEmpty, top), t) && ListSound(r, buf, p, t) && fresh(ListStrings(r))
    ensures r.ListClosed? ==> p < r.at
    ensures forall k :: 0 <= k < buf.Length && k < p ==> buf[k] == old(buf[k])
    decreases |t| - p, 3
  {
    hide ParseList, Laid, AllIn, NodesOf, TreePairs, PairsOf;
    var q, empty := p, docEmpty;
    var trees: seq<Tree> := [];
    ghost var ps: seq<StrPair> := [];
    NothingListed(buf, p, Floor(t, p));
    ShownAt(buf, t, p, p);
    while buf[q] != NUL
      invariant p <= q <= |t| && Shows(buf, t, q) && |t| < buf.Length && (buf[q] == NUL <==> q == |t|)
      invariant ParseList(t[q..], NodesOf(trees), empty, top) == ParseList(t[p..], [], docEmpty, top)
      invariant ps == TreePairs(trees) && Laid(ps, buf, p, Floor(t, q)) && AllIn(ps, buf[..]) && fresh(ps)
      invariant forall k :: 0 <= k < buf.Length && k < p ==> buf[k] == old(buf[k])
      decreases |t| - q
    {
      ghost var was := buf[..];
      var round, own := ReadSibling(buf, q, empty, NodesOf(trees), top, t);
      AllStay(ps, buf, p, Floor(t, q), was, buf[..]);
      if round.Ends? {
        LaidUpTo(ps, buf, p, Floor(t, q), |t| + 1);
        return ListAtEnd(trees);
      }
      if round.Refused? {
        NothingListed(buf, p, |t| + 1);
        return ListFailed(round.error);
      }
      AllConcat(ps, own, buf[..]);
      if round.Closes? {
        LaidConcat(ps, own, buf, p, Floor(t, q), round.at);
        return ListClosed(trees, round.name, round.at);
      }
      LaidConcat(ps, own, buf, p, Floor(t, q), Floor(t, round.at));
      OneMoreTree(trees, round.tree);
      ps := ps + own;
      q, trees, empty := round.at, trees + [round.tree], empty && !top;
      ShownAt(buf, t, q, q);
    }
    ListGoesOn(t[q..], NodesOf(trees), empty, top);
    LaidUpTo(ps, buf, p, Floor(t, q), |t| + 1);
    return ListAtEnd(trees);
  }

  lemma NothingListed(buf: array<char>, lo: nat, hi: nat)
    ensures Laid([], buf, lo, hi) && AllIn([], buf[..]) && TreePairs([]) == [] && NodesOf([]) == []
  {
  }

  // ----- documents -----

  datatype DocumentRead = DocumentRefused(error: Error) | DocumentRead(buf: array<char>, trees: seq<Tree>)

  /** The buffer of a document: a copy of the text and its terminator. */
  method CopyText(source: string) returns (buf: array<char>)
    ensures fresh(buf) && Shows(buf, CStringAt(source, 0), 0)
  {
    buf := new char[|source| + 1];
    for i := 0 to |source|
      invariant forall k :: 0 <= k < i ==> buf[k] == source[k]
    {
      buf[i] := source[i];
    }
    buf[|source|] := NUL;
    ghost var n := IndexOf(source, 0, NUL);
    assert forall i :: 0 <= i < n ==> source[i] in source[0..n];
  }

  /** Behind leading whitespace and the byte order mark. */
  ghost function Start(t: string): string {
    var u := SkipWhiteSpace(t);
    if BOM <= u then u[3..] else u
  }

  method FindStart(buf: array<char>, ghost t: string) returns (q: nat)
    requires Shows(buf, t, 0)
    ensures q <= |t| && t[q..] == Start(t)
  {
    hide Shows, SkipWhiteSpace;
    assert t[0..] == t;
    var p := SkipInPlace(buf, 0, t);
    ShownAt(buf, t, 0, p);
    assert NUL !in BOM;
    var marked := StartsAt(buf, p, BOM, t);
    q := if marked then p + 3 else p;
  }

  lemma DocumentGoesOn(t: string)
    ensures ParseDocument(t) == if Start(t) == "" then DocumentFailed(EmptyDocument)
                                else match ParseList(Start(t), [], true, true)
                                     case Failed(e) => DocumentFailed(e)
                                     case AtEnd(nodes) => Document(nodes)
                                     case Closed(nodes, _, _) => Document(nodes)
  {
    hide ParseList, SkipWhiteSpace;
  }

  /** `XMLDocument::Parse`: copies the text and parses up to its first NUL. */
  method ReadDocument(source: string) returns (r: DocumentRead, ghost ps: seq<StrPair>)
    ensures r.DocumentRefused? ==> ParseDocument(CStringAt(source, 0)) == DocumentFailed(r.error)
    ensures r.DocumentRead? ==> ParseDocument(CStringAt(source, 0)) == Document(NodesOf(r.trees))
    ensures r.DocumentRead? ==> fresh(r.buf) && fresh(ps) && TreePairs(r.trees) <= ps
    ensures r.DocumentRead? ==> Laid(ps, r.buf, 0, r.buf.Length) && AllIn(ps, r.buf[..])
  {
    hide ParseList, ParseDocument, NodesOf, TreePairs, Laid, AllIn, Start;
    ps := [];
    ghost var t := CStringAt(source, 0);
    DocumentGoesOn(t);
    if source == "" || source[0] == NUL {
      StartsEmpty(t);
      return DocumentRefused(EmptyDocument), ps;
    }
    var buf := CopyText(source);
    var q := FindStart(buf, t);
    ShownAt(buf, t, 0, q);
    if buf[q] == NUL {
      return DocumentRefused(EmptyDocument), ps;
    }
    var list := ReadList(buf, q, true, true, t);
    ps := ListStrings(list);
    match list
    case ListFailed(e) => r := DocumentRefused(e);
    case ListAtEnd(trees) =>
      LaidWider(ps, buf, q, |t| + 1);
      r := DocumentRead(buf, trees);
    case ListClosed(trees, _, at) =>
      LaidWider(ps, buf, q, at);
      r := DocumentRead(buf, trees);
  }

  lemma StartsEmpty(t: string)
    requires t == ""
    ensures Start(t) == ""
  {
  }

  lemma LaidWider(ps: seq<StrPair>, buf: array<char>, lo: nat, hi: nat)
    requires Laid(ps, buf, lo, hi) && hi <= buf.Length
    ensures Laid(ps, buf, 0, buf.Length)
  {
  }

  // ----- reading a parsed document -----

  method CopyString(buf: array<char>, at: nat, ghost v: string, ghost limit: nat) returns (s: string)
    requires Reads(buf[..], at, v, limit)
    ensures s == v
  {
    var i := 0;
    s := "";
    assert forall k :: 0 <= k < |v| ==> buf[at + k] == v[k] != NUL;
    while buf[at + i] != NUL
      invariant 0 <= i <= |v| && s == v[..i]
      decreases |v| - i
    {
      s := s + [buf[at + i]];
      i := i + 1;
    }
  }

  method ReadString(p: StrPair, buf: array<char>, ghost ps: seq<StrPair>, ghost lo: nat, ghost hi: nat)
    returns (s: string)
    requires p in ps && Laid(ps, buf, lo, hi) && AllIn(ps, buf[..])
    modifies p, buf
    ensures AllIn(ps, buf[..]) && s == p.value
  {
    hide Laid, AllIn, Reads;
    var at := Read(p, buf, ps, lo, hi);
    s := CopyString(buf, at, p.value, p.end);
  }

  ghost predicate Among(xs: seq<StrPair>, ps: seq<StrPair>) {
    forall x :: x in xs ==> x in ps
  }

  lemma {:induction false} AttributeAmong(attributes: seq<Attr>, ps: seq<StrPair>, i: nat)
    requires Among(AttrPairs(attributes), ps) && i < |attributes|
    ensures attributes[i].name in ps && attributes[i].value in ps
    decreases |attributes|
  {
    var n := |attributes| - 1;
    var own := [attributes[n].name, attributes[n].value];
    assert AttrPairs(attributes) == AttrPairs(attributes[..n]) + own;
    if i < n {
      AttributeAmong(attributes[..n], ps, i);
    } else {
      assert own[0] in own && own[1] in own;
    }
  }

  lemma {:induction false} ChildAmong(trees: seq<Tree>, ps: seq<StrPair>, i: nat)
    requires Among(TreePairs(trees), ps) && i < |trees|
    ensures Among(PairsOf(trees[i]), ps)
    decreases |trees|
  {
    hide PairsOf;
    var n := |trees| - 1;
    assert TreePairs(trees) == TreePairs(trees[..n]) + PairsOf(trees[n]);
    if i < n {
      ChildAmong(trees[..n], ps, i);
    }
  }

  lemma PartsAmong(tree: Tree, ps: seq<StrPair>)
    requires tree.ElementTree? && Among(PairsOf(tree), ps)
    ensures tree.name in ps && Among(AttrPairs(tree.attributes), ps) && Among(TreePairs(tree.children), ps)
  {
    hide AttrPairs, TreePairs;
    assert tree.name in [tree.name];
  }

  /** Reads every string of a tree. */
  method ReadTree(buf: array<char>, tree: Tree, ghost ps: seq<StrPair>, ghost lo: nat, ghost hi: nat) returns (n: Node)
    requires Laid(ps, buf, lo, hi) && AllIn(ps, buf[..]) && Among(PairsOf(tree), ps)
    modifies ps, buf
    ensures AllIn(ps, buf[..]) && n == NodeOf(tree)
    decreases tree, 1
  {
    hide Laid, AllIn, AttributesOf, NodesOf;
    match tree
    case TextTree(value) =>
      assert value in PairsOf(tree);
      var s := ReadString(value, buf, ps, lo, hi);
      n := Text(s, false);
    case LeafTree(kind, value) =>
      assert value in PairsOf(tree);
      var s := ReadString(value, buf, ps, lo, hi);
      n := kind.Make(s);
    case ElementTree(name, attributes, children) =>
      PartsAmong(tree, ps);
      var s := ReadString(name, buf, ps, lo, hi);
      var read := ReadAttributeStrings(buf, attributes, ps, lo, hi);
      var nodes := ReadTrees(buf, children, ps, lo, hi);
      n := Element(s, read, nodes);
  }

  method ReadAttributeStrings(buf: array<char>, attributes: seq<Attr>, ghost ps: seq<StrPair>, ghost lo: nat,
                              ghost hi: nat)
    returns (read: seq<Attribute>)
    requires Laid(ps, buf, lo, hi) && AllIn(ps, buf[..]) && Among(AttrPairs(attributes), ps)
    modifies ps, buf
    ensures AllIn(ps, buf[..]) && read == AttributesOf(attributes)
  {
    hide Laid, AllIn, Among;
    read := [];
    for i := 0 to |attributes|
      invariant AllIn(ps, buf[..]) && read == AttributesOf(attributes[..i])
    {
      AttributeAmong(attributes, ps, i);
      var name := ReadString(attributes[i].name, buf, ps, lo, hi);
      var value := ReadString(attributes[i].value, buf, ps, lo, hi);
      OneMoreAttr(attributes[..i], attributes[i]);
      assert attributes[..i] + [attributes[i]] == attributes[..i + 1];
      read := read + [Attribute(name, value)];
    }
    assert attributes[..|attributes|] == attributes;
  }

  method ReadTrees(buf: array<char>, trees: seq<Tree>, ghost ps: seq<StrPair>, ghost lo: nat, ghost hi: nat)
    returns (nodes: seq<Node>)
    requires Laid(ps, buf, lo, hi) && AllIn(ps, buf[..]) && Among(TreePairs(trees), ps)
    modifies ps, buf
    ensures AllIn(ps, buf[..]) && nodes == NodesOf(trees)
    decreases trees, 0
  {
    hide Laid, AllIn, Among, NodeOf, PairsOf, NodesOf;
    nodes := [];
    NothingListed(buf, 0, 0);
    for i := 0 to |trees|
      invariant AllIn(ps, buf[..]) && nodes == NodesOf(trees[..i])
    {
      ChildAmong(trees, ps, i);
      var n := ReadTree(buf, trees[i], ps, lo, hi);
      OneMoreTree(trees[..i], trees[i]);
      assert trees[..i] + [trees[i]] == trees[..i + 1];
      nodes := nodes + [n];
    }
    assert trees[..|trees|] == trees;
  }

  /**
   Parses a text, then reads strings of the document in any order and any number
   of times: the tree read in the end is that of the grammar.
   */
  method ParseAndRead(source: string, picks: seq<nat>) returns (r: DocumentResult)
    ensures r == ParseDocument(CStringAt(source, 0))
  {
    hide ParseDocument, NodesOf, TreePairs, Laid, AllIn;
    var document, ps := ReadDocument(source);
    if document.DocumentRefused? {
      return DocumentFailed(document.error);
    }
    var buf, pairs := document.buf, TreePairs(document.trees);
    assert forall i :: 0 <= i < |pairs| ==> pairs[i] == ps[i];
    for i := 0 to |picks|
      invariant AllIn(ps, buf[..])
    {
      if picks[i] < |pairs| {
        var at := Read(pairs[picks[i]], buf, ps, 0, buf.Length);
      }
    }
    var nodes := ReadTrees(buf, document.trees, ps, 0, buf.Length);
    return Document(nodes);
  }
}
