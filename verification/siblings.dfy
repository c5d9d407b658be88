/**
 The doubly linked children of `XMLNode` (`native/mars/comm/tinyxml2.cc`): every
 operation keeps all lists of a document well linked and changes the sequence
 of children as its name says.
 */
module XmlSiblings {

  import opened Sequences

  /** A sequence without an element; one that does not hold it stays as it is. */
  function Without<T(==)>(s: seq<T>, x: T): (r: seq<T>)
    ensures x !in r && (x !in s ==> r == s)
  {
    if s == [] then [] else (if s[0] == x then [] else [s[0]]) + Without(s[1..], x)
  }

  lemma {:induction false} WithoutAt<T>(s: seq<T>, i: nat)
    requires i < |s| && Distinct(s)
    ensures Without(s, s[i]) == s[..i] + s[i + 1..]
  {
    if i == 0 {
      assert s[0] !in s[1..];
    } else {
      WithoutAt(s[1..], i - 1);
      assert s[1..][..i - 1] == s[1..i] && s[1..][i..] == s[i + 1..];
      assert [s[0]] + (s[1..i] + s[i + 1..]) == s[..i] + s[i + 1..];
    }
  }

  class XMLNode {
    /** Which document the node belongs to. */
    const document: int
    var parent: XMLNode?
    var firstChild: XMLNode?
    var lastChild: XMLNode?
    var prev: XMLNode?
    var next: XMLNode?
    ghost var kids: seq<XMLNode>

    constructor (document: int)
      ensures this.document == document && GetLinks() == Links(null, null, null, null, null, [])
    {
      this.document := document;
      parent, firstChild, lastChild, prev, next := null, null, null, null, null;
      kids := [];
    }

    ghost function GetLinks(): Links
      reads this
    {
      Links(parent, firstChild, lastChild, prev, next, kids)
    }

    /** `Unlink`, the ends of the list. */
    method DropFromEnds(child: XMLNode, ghost all: set<XMLNode>)
      requires this in all
      modifies `firstChild, `lastChild
      ensures Snapshot(all) == EndsDropped(old(Snapshot(all)), this, child.next, child.prev, child)
    {
      if child == firstChild {
        firstChild := child.next;
      }
      if child == lastChild {
        lastChild := child.prev;
      }
    }

    /** The links that lead to the place between two neighbours. */
    static method SetNeighbours(before: XMLNode?, itsNext: XMLNode?, after: XMLNode?, itsPrev: XMLNode?,
                                ghost all: set<XMLNode>)
      requires before != null ==> before in all
      requires after != null ==> after in all
      modifies all
      ensures Snapshot(all) == PrevSet(NextSet(old(Snapshot(all)), before, itsNext), after, itsPrev)
    {
      ghost var m := Snapshot(all);
      if before != null {
        before.next := itsNext;
      }
      assert Snapshot(all) == NextSet(m, before, itsNext);
      if after != null {
        after.prev := itsPrev;
      }
    }

    method Unlink(child: XMLNode, ghost all: set<XMLNode>)
      requires Valid(Snapshot(all)) && this in all && child in all && child.parent == this
      modifies all
      ensures Removed(old(Snapshot(all)), Snapshot(all), child)
    {
      ghost var m := Snapshot(all);
      ghost var i := PlaceOf(m, child);
      hide Valid, Before, After, Distinct, Removed;
      DropFromEnds(child, all);
      assert child.prev == m[child].prev && child.next == m[child].next;
      SetNeighbours(child.prev, child.next, child.next, child.prev, all);
      SetParent(child, null, m[this].kids[..i] + m[this].kids[i + 1..], all);
      UnlinkIsTakenOut(m, this, i);
      TakenOutIsRemoved(m, Snapshot(all), this, i);
    }

    /** Takes the node out of its list, if it is in one; its document is told otherwise. */
    method InsertChildPreamble(insertThis: XMLNode, ghost all: set<XMLNode>)
      requires Valid(Snapshot(all)) && insertThis in all
      modifies all
      ensures Removed(old(Snapshot(all)), Snapshot(all), insertThis)
    {
      ghost var m := Snapshot(all);
      if insertThis.parent != null {
        ParentIsIn(m, insertThis);
        insertThis.parent.Unlink(insertThis, all);
      } else {
        NothingToRemove(m, insertThis);
      }
    }

    method SetSiblings(before: XMLNode?, after: XMLNode?, ghost all: set<XMLNode>)
      requires this in all
      modifies `prev, `next
      ensures Snapshot(all) == old(Snapshot(all))[this := old(GetLinks()).(prev := before, next := after)]
    {
      prev, next := before, after;
    }

    method AddToEnds(child: XMLNode, front: bool, back: bool, ghost all: set<XMLNode>)
      requires this in all
      modifies `firstChild, `lastChild
      ensures Snapshot(all) == EndsAdded(old(Snapshot(all)), this, child, front, back)
    {
      if front {
        firstChild := child;
      }
      if back {
        lastChild := child;
      }
    }

    /** The assignments all insertions share. */
    method InsertBetween(child: XMLNode, before: XMLNode?, after: XMLNode?, ghost i: nat, ghost all: set<XMLNode>)
      requires Valid(Snapshot(all)) && this in all && child in all && child.parent == null
      requires i <= |kids| && before == BeforeGap(kids, i) && after == AfterGap(kids, i)
      modifies all
      ensures i <= |old(kids)| && PutIn(old(Snapshot(all)), Snapshot(all), this, i, child)
    {
      ghost var m := Snapshot(all);
      ghost var ks := kids;
      NotListed(m, child);
      KidsAreIn(m, this);
      hide Valid;
      assert before != null ==> before == ks[i - 1] && before in m[this].kids;
      assert after != null ==> after == ks[i] && after in m[this].kids;
      child.SetSiblings(before, after, all);
      SetNeighbours(before, child, after, child, all);
      AddToEnds(child, before == null, after == null, all);
      SetParent(child, this, ks[..i] + [child] + ks[i..], all);
      InsertIsPutIn(m, this, child, i);
    }

    method InsertEndChild(addThis: XMLNode, ghost all: set<XMLNode>) returns (r: XMLNode?)
      requires Valid(Snapshot(all)) && this in all && addThis in all
      modifies all
      ensures addThis.document != document ==> r == null && Snapshot(all) == old(Snapshot(all))
      ensures addThis.document == document ==>
                && r == addThis
                && Added(old(Snapshot(all)), Snapshot(all), this, addThis, Without(old(kids), addThis) + [addThis])
    {
      if addThis.document != document {
        return null;
      }
      ghost var m := Snapshot(all);
      InsertChildPreamble(addThis, all);
      ghost var m1 := Snapshot(all);
      EndsOfList(m1, this);
      assert m1[addThis].parent == null && m1[this] == GetLinks();
      InsertBetween(addThis, lastChild, null, |kids|, all);
      AppendIsAdded(m, m1, Snapshot(all), this, addThis);
      return addThis;
    }

    method InsertFirstChild(addThis: XMLNode, ghost all: set<XMLNode>) returns (r: XMLNode?)
      requires Valid(Snapshot(all)) && this in all && addThis in all
      modifies all
      ensures addThis.document != document ==> r == null && Snapshot(all) == old(Snapshot(all))
      ensures addThis.document == document ==>
                && r == addThis
                && Added(old(Snapshot(all)), Snapshot(all), this, addThis, [addThis] + Without(old(kids), addThis))
    {
      if addThis.document != document {
        return null;
      }
      ghost var m := Snapshot(all);
      InsertChildPreamble(addThis, all);
      ghost var m1 := Snapshot(all);
      EndsOfList(m1, this);
      assert m1[addThis].parent == null && m1[this] == GetLinks();
      InsertBetween(addThis, null, firstChild, 0, all);
      PrependIsAdded(m, m1, Snapshot(all), this, addThis);
      return addThis;
    }

    /** The source may be called exactly where this is asked for: see `InsertAfterIsSafe`. */
    method InsertAfterChild(afterThis: XMLNode, addThis: XMLNode, ghost all: set<XMLNode>) returns (r: XMLNode?)
      requires Valid(Snapshot(all)) && this in all && addThis in all && afterThis in all
      requires afterThis.next != null ==> addThis != afterThis && (afterThis.next == addThis ==> addThis.next != null)
      modifies all
      ensures addThis.document != document || old(afterThis.parent) != this ==>
                r == null && Snapshot(all) == old(Snapshot(all))
      ensures addThis.document == document && old(afterThis.parent) == this ==>
                r == addThis
                && Added(old(Snapshot(all)), Snapshot(all), this, addThis, PutAfter(old(kids), afterThis, addThis))
    {
      hide Valid, Added, Removed, PutIn, PutAfter, Without;
      if addThis.document != document {
        return null;
      }
      if afterThis.parent != this {
        return null;
      }
      ghost var m := Snapshot(all);
      if afterThis.next == null {
        r := InsertEndChild(addThis, all);
        AfterLast(m, this, afterThis, addThis);
        return;
      }
      InsertChildPreamble(addThis, all);
      ghost var m1 := Snapshot(all);
      RemovedFacts(m, m1, addThis);
      StillInside(m, m1, this, afterThis, addThis);
      assert afterThis.next != null;
      ghost var i := PlaceOf(m1, afterThis);
      InsertBetween(addThis, afterThis, afterThis.next, i + 1, all);
      BetweenIsAdded(m, m1, Snapshot(all), this, i, addThis);
      return addThis;
    }

    /** The child's parent, and with it the ghost list of this node. */
    method SetParent(child: XMLNode, parent: XMLNode?, ghost ks: seq<XMLNode>, ghost all: set<XMLNode>)
      requires this in all && child in all
      modifies `kids, child`parent
      ensures Snapshot(all) == Placing(old(Snapshot(all)), this, child, parent, ks)
    {
      child.parent := parent;
      kids := ks;
    }
  }

  // ----- the links of many nodes as a value -----

  datatype Links = Links(parent: XMLNode?, firstChild: XMLNode?, lastChild: XMLNode?,
                         prev: XMLNode?, next: XMLNode?, kids: seq<XMLNode>)

  type Net = map<XMLNode, Links>

  ghost function Snapshot(all: set<XMLNode>): Net
    reads all
  {
    map n | n in all :: n.GetLinks()
  }

  function EndsDropped(m: Net, p: XMLNode, after: XMLNode?, before: XMLNode?, c: XMLNode): Net
    requires p in m
  {
    m[p := m[p].(firstChild := if m[p].firstChild == c then after else m[p].firstChild,
                 lastChild := if m[p].lastChild == c then before else m[p].lastChild)]
  }

  function NextSet(m: Net, n: XMLNode?, value: XMLNode?): Net
    requires n != null ==> n in m
  {
    if n == null then m else m[n := m[n].(next := value)]
  }

  function PrevSet(m: Net, n: XMLNode?, value: XMLNode?): Net
    requires n != null ==> n in m
  {
    if n == null then m else m[n := m[n].(prev := value)]
  }

  function Bridged(m: Net, before: XMLNode?, after: XMLNode?): Net
    requires before != null ==> before in m
    requires after != null ==> after in m
  {
    PrevSet(NextSet(m, before, after), after, before)
  }

  function Placing(m: Net, p: XMLNode, c: XMLNode, parent: XMLNode?, ks: seq<XMLNode>): Net
    requires p in m && c in m
  {
    var r := m[c := m[c].(parent := parent)];
    r[p := r[p].(kids := ks)]
  }

  function Before(ks: seq<XMLNode>, i: nat): XMLNode?
    requires i < |ks|
  {
    if i == 0 then null else ks[i - 1]
  }

  function After(ks: seq<XMLNode>, i: nat): XMLNode?
    requires i < |ks|
  {
    if i == |ks| - 1 then null else ks[i + 1]
  }

  function First(ks: seq<XMLNode>): XMLNode? { if ks == [] then null else ks[0] }

  function Last(ks: seq<XMLNode>): XMLNode? { if ks == [] then null else ks[|ks| - 1] }

  predicate IsKid(m: Net, n: XMLNode, i: nat)
    requires n in m && i < |m[n].kids|
  {
    var ks := m[n].kids;
    ks[i] in m && m[ks[i]].parent == n && m[ks[i]].prev == Before(ks, i) && m[ks[i]].next == After(ks, i)
  }

  /** The links of n and its children are those of kids, in both directions. */
  predicate Linked(m: Net, n: XMLNode)
    requires n in m
  {
    var ks := m[n].kids;
    && Distinct(ks) && m[n].firstChild == First(ks) && m[n].lastChild == Last(ks)
    && forall i :: 0 <= i < |ks| ==> IsKid(m, n, i)
  }

  predicate Placed(m: Net, n: XMLNode)
    requires n in m
  {
    var p := m[n].parent;
    p != null ==> p in m && n in m[p].kids
  }

  /** Every list is well linked, and every node with a parent is in its list. */
  ghost predicate Valid(m: Net) {
    forall n {:trigger Linked(m, n)} {:trigger Placed(m, n)} :: n in m ==> Linked(m, n) && Placed(m, n)
  }

  /** The children of different parents are different. */
  lemma OneParent(m: Net, n: XMLNode, k: XMLNode)
    requires Valid(m) && n in m && k in m[n].kids
    ensures k in m && m[k].parent == n
  {
    assert Linked(m, n);
    var i: nat :| i < |m[n].kids| && m[n].kids[i] == k;
    assert IsKid(m, n, i);
  }

  /** Where a node stands, with its neighbours. */
  lemma PlaceOf(m: Net, c: XMLNode) returns (i: nat)
    requires Valid(m) && c in m && m[c].parent != null
    ensures var p := m[c].parent;
            p in m && i < |m[p].kids| && m[p].kids[i] == c && Distinct(m[p].kids)
            && m[c].prev == Before(m[p].kids, i) && m[c].next == After(m[p].kids, i)
    ensures m[c].prev != null ==> m[c].prev in m
    ensures m[c].next != null ==> m[c].next in m
  {
    var p := m[c].parent;
    assert Placed(m, c) && Linked(m, p);
    i :| 0 <= i < |m[p].kids| && m[p].kids[i] == c;
    assert IsKid(m, p, i);
    assert i > 0 ==> IsKid(m, p, i - 1);
    assert i + 1 < |m[p].kids| ==> IsKid(m, p, i + 1);
  }

  // ----- removing -----

  /** The links after child i of p has been taken out; the child's own sibling links stay as they were. */
  ghost predicate TakenOut(m: Net, r: Net, p: XMLNode, i: nat)
    requires p in m && i < |m[p].kids| && m[p].kids[i] in m
  {
    && r.Keys == m.Keys
    && forall n {:trigger r[n]} :: n in m ==> r[n] == LinksWithout(m, p, i, n)
  }

  function LinksWithout(m: Net, p: XMLNode, i: nat, n: XMLNode): Links
    requires p in m && i < |m[p].kids| && m[p].kids[i] in m && n in m
  {
    var ks := m[p].kids;
    var c := ks[i];
    Links(if n == c then null else m[n].parent,
          if n == p && m[p].firstChild == c then m[c].next else m[n].firstChild,
          if n == p && m[p].lastChild == c then m[c].prev else m[n].lastChild,
          if n == m[c].next then m[c].prev else m[n].prev,
          if n == m[c].prev then m[c].next else m[n].next,
          if n == p then ks[..i] + ks[i + 1..] else m[n].kids)
  }

  /** What taking a child out means: it has no parent, and it is in no list. */
  ghost predicate Removed(m: Net, r: Net, c: XMLNode) {
    && Valid(r) && r.Keys == m.Keys
    && forall n {:trigger r[n]} :: n in m ==>
         r[n].parent == (if n == c then null else m[n].parent) && r[n].kids == Without(m[n].kids, c)
  }

  /** The assignments of `Unlink` together. */
  function Unlinked(m: Net, p: XMLNode, c: XMLNode, ks: seq<XMLNode>): Net
    requires p in m && c in m && (m[c].prev != null ==> m[c].prev in m) && (m[c].next != null ==> m[c].next in m)
  {
    var dropped := EndsDropped(m, p, m[c].next, m[c].prev, c);
    Placing(Bridged(dropped, m[c].prev, m[c].next), p, c, null, ks)
  }

  lemma UnlinkIsTakenOut(m: Net, p: XMLNode, i: nat)
    requires p in m && i < |m[p].kids| && m[p].kids[i] in m
    requires var c := m[p].kids[i]; (m[c].prev != null ==> m[c].prev in m) && (m[c].next != null ==> m[c].next in m)
    ensures TakenOut(m, Unlinked(m, p, m[p].kids[i], m[p].kids[..i] + m[p].kids[i + 1..]), p, i)
  {
    var c, ks := m[p].kids[i], m[p].kids[..i] + m[p].kids[i + 1..];
    forall n | n in m
      ensures Unlinked(m, p, c, ks)[n] == LinksWithout(m, p, i, n)
    {
      UnlinkedAt(m, p, c, ks, n);
    }
  }

  lemma UnlinkedAt(m: Net, p: XMLNode, c: XMLNode, ks: seq<XMLNode>, n: XMLNode)
    requires p in m && c in m && (m[c].prev != null ==> m[c].prev in m) && (m[c].next != null ==> m[c].next in m)
    requires n in m
    ensures n in Unlinked(m, p, c, ks)
    ensures Unlinked(m, p, c, ks)[n] ==
              Links(if n == c then null else m[n].parent,
                    if n == p && m[p].firstChild == c then m[c].next else m[n].firstChild,
                    if n == p && m[p].lastChild == c then m[c].prev else m[n].lastChild,
                    if n == m[c].next then m[c].prev else m[n].prev,
                    if n == m[c].prev then m[c].next else m[n].next,
                    if n == p then ks else m[n].kids)
  {
  }

  lemma TakenOutIsRemoved(m: Net, r: Net, p: XMLNode, i: nat)
    requires p in m && i < |m[p].kids| && m[p].kids[i] in m && Valid(m) && TakenOut(m, r, p, i)
    ensures Removed(m, r, m[p].kids[i])
  {
    var c := m[p].kids[i];
    TakenOutIsValid(m, r, p, i);
    assert Linked(m, p);
    hide Linked, Placed;
    forall n | n in m
      ensures r[n].kids == Without(m[n].kids, c)
    {
      if n == p {
        WithoutAt(m[p].kids, i);
      } else if c in m[n].kids {
        OneParent(m, n, c);
        OneParent(m, p, c);
      }
    }
  }

  lemma TakenOutIsValid(m: Net, r: Net, p: XMLNode, i: nat)
    requires p in m && i < |m[p].kids| && m[p].kids[i] in m && Valid(m) && TakenOut(m, r, p, i)
    ensures Valid(r)
  {
    forall n | n in r
      ensures Linked(r, n) && Placed(r, n)
    {
      if n == p {
        ShorterListIsLinked(m, r, p, i);
      } else {
        OtherListIsLinked(m, r, p, i, n);
      }
      StillPlaced(m, r, p, i, n);
    }
  }

  lemma ShorterListIsLinked(m: Net, r: Net, p: XMLNode, i: nat)
    requires p in m && i < |m[p].kids| && m[p].kids[i] in m && Valid(m) && TakenOut(m, r, p, i)
    ensures Linked(r, p)
  {
    assert Linked(m, p) && IsKid(m, p, i);
    forall j | 0 <= j < |r[p].kids|
      ensures IsKid(r, p, j)
    {
      ShorterListKid(m, r, p, i, j);
    }
  }

  lemma ShorterListKid(m: Net, r: Net, p: XMLNode, i: nat, j: nat)
    requires p in m && i < |m[p].kids| && m[p].kids[i] in m && Valid(m) && TakenOut(m, r, p, i) && j < |m[p].kids| - 1
    ensures IsKid(r, p, j)
  {
    var ks := m[p].kids;
    assert Linked(m, p) && IsKid(m, p, i);
    assert i > 0 ==> IsKid(m, p, i - 1);
    assert i + 1 < |ks| ==> IsKid(m, p, i + 1);
    assert IsKid(m, p, if j < i then j else j + 1);
  }

  lemma OtherListIsLinked(m: Net, r: Net, p: XMLNode, i: nat, n: XMLNode)
    requires p in m && i < |m[p].kids| && m[p].kids[i] in m && Valid(m) && TakenOut(m, r, p, i) && n in m && n != p
    ensures Linked(r, n)
  {
    var ks := m[p].kids;
    assert Linked(m, p) && IsKid(m, p, i) && Linked(m, n);
    assert i > 0 ==> IsKid(m, p, i - 1);
    assert i + 1 < |ks| ==> IsKid(m, p, i + 1);
    forall j | 0 <= j < |m[n].kids|
      ensures IsKid(r, n, j)
    {
      assert IsKid(m, n, j);
    }
  }

  lemma StillPlaced(m: Net, r: Net, p: XMLNode, i: nat, n: XMLNode)
    requires p in m && i < |m[p].kids| && m[p].kids[i] in m && Valid(m) && TakenOut(m, r, p, i) && n in m
    ensures Placed(r, n)
  {
    assert Placed(m, n);
    var ks := m[p].kids;
    if m[n].parent == p && n != ks[i] {
      var j: nat :| j < |ks| && ks[j] == n;
      assert r[p].kids[if j < i then j else j - 1] == n;
    }
  }

  // ----- adding -----

  /** The links after the parentless node c has become child i of p. */
  ghost predicate PutIn(m: Net, r: Net, p: XMLNode, i: nat, c: XMLNode)
    requires p in m && i <= |m[p].kids|
  {
    && r.Keys == m.Keys
    && forall n {:trigger r[n]} :: n in m ==> r[n] == LinksWith(m, p, i, c, n)
  }

  function LinksWith(m: Net, p: XMLNode, i: nat, c: XMLNode, n: XMLNode): Links
    requires p in m && i <= |m[p].kids| && n in m
  {
    var ks := m[p].kids;
    var before, after := BeforeGap(ks, i), AfterGap(ks, i);
    Links(if n == c then p else m[n].parent,
          if n == p && i == 0 then c else m[n].firstChild,
          if n == p && i == |ks| then c else m[n].lastChild,
          if n == c then before else if n == after then c else m[n].prev,
          if n == c then after else if n == before then c else m[n].next,
          if n == p then ks[..i] + [c] + ks[i..] else m[n].kids)
  }

  function BeforeGap(ks: seq<XMLNode>, i: nat): XMLNode?
    requires i <= |ks|
  {
    if i == 0 then null else ks[i - 1]
  }

  function AfterGap(ks: seq<XMLNode>, i: nat): XMLNode?
    requires i <= |ks|
  {
    if i == |ks| then null else ks[i]
  }

  /** The assignments of an insertion together. */
  function Inserted(m: Net, p: XMLNode, c: XMLNode, before: XMLNode?, after: XMLNode?, ks: seq<XMLNode>): Net
    requires p in m && c in m && (before != null ==> before in m) && (after != null ==> after in m)
  {
    Placing(EndsAdded(Joined(m, c, before, after), p, c, before == null, after == null), p, c, p, ks)
  }

  function Joined(m: Net, c: XMLNode, before: XMLNode?, after: XMLNode?): Net
    requires c in m && (before != null ==> before in m) && (after != null ==> after in m)
  {
    PrevSet(NextSet(m[c := m[c].(prev := before, next := after)], before, c), after, c)
  }

  function EndsAdded(m: Net, p: XMLNode, c: XMLNode, front: bool, back: bool): Net
    requires p in m
  {
    m[p := m[p].(firstChild := if front then c else m[p].firstChild, lastChild := if back then c else m[p].lastChild)]
  }

  lemma InsertedAt(m: Net, p: XMLNode, c: XMLNode, before: XMLNode?, after: XMLNode?, ks: seq<XMLNode>, n: XMLNode)
    requires p in m && c in m && (before != null ==> before in m) && (after != null ==> after in m)
    requires n in m && before != c && after != c
    ensures var r := Inserted(m, p, c, before, after, ks);
            n in r &&
            r[n] == Links(if n == c then p else m[n].parent,
                          if n == p && before == null then c else m[n].firstChild,
                          if n == p && after == null then c else m[n].lastChild,
                          if n == c then before else if n == after then c else m[n].prev,
                          if n == c then after else if n == before then c else m[n].next,
                          if n == p then ks else m[n].kids)
  {
  }

  lemma InsertIsPutIn(m: Net, p: XMLNode, c: XMLNode, i: nat)
    requires p in m && c in m && i <= |m[p].kids| && c !in m[p].kids
    requires forall k :: k in m[p].kids ==> k in m
    ensures PutIn(m, Inserted(m, p, c, BeforeGap(m[p].kids, i), AfterGap(m[p].kids, i),
                              m[p].kids[..i] + [c] + m[p].kids[i..]), p, i, c)
  {
    var ks := m[p].kids;
    var before, after, ls := BeforeGap(ks, i), AfterGap(ks, i), ks[..i] + [c] + ks[i..];
    forall n | n in m
      ensures Inserted(m, p, c, before, after, ls)[n] == LinksWith(m, p, i, c, n)
    {
      InsertedAt(m, p, c, before, after, ls, n);
    }
  }

  /** y put after x, if x is there; y is removed from where it was. */
  function PutAfter<T(==)>(s: seq<T>, x: T, y: T): seq<T> { AfterElement(Without(s, y), x, y) }

  /** y behind x, or at the end. */
  function AfterElement<T(==)>(s: seq<T>, x: T, y: T): seq<T> {
    if s == [] then [y] else if s[0] == x then [x, y] + s[1..] else [s[0]] + AfterElement(s[1..], x, y)
  }

  /** What an insertion means: c has the parent p and is in its list only, where it was put. */
  ghost predicate Added(m: Net, r: Net, p: XMLNode, c: XMLNode, ks: seq<XMLNode>)
  {
    && Valid(r) && r.Keys == m.Keys
    && forall n {:trigger r[n]} :: n in m ==>
         r[n].parent == (if n == c then p else m[n].parent)
         && r[n].kids == (if n == p then ks else Without(m[n].kids, c))
  }

  lemma PutInIsValid(m: Net, r: Net, p: XMLNode, i: nat, c: XMLNode)
    requires Valid(m) && p in m && i <= |m[p].kids| && c in m && m[c].parent == null && PutIn(m, r, p, i, c)
    ensures Valid(r)
  {
    forall n | n in r
      ensures Linked(r, n) && Placed(r, n)
    {
      if n == p {
        LongerListIsLinked(m, r, p, i, c);
      } else {
        ListBesideIsLinked(m, r, p, i, c, n);
      }
      PlacedToo(m, r, p, i, c, n);
    }
  }

  lemma LongerListIsDistinct<T>(s: seq<T>, i: nat, c: T)
    requires i <= |s| && Distinct(s) && c !in s
    ensures Distinct(s[..i] + [c] + s[i..])
  {
  }

  lemma LongerListIsLinked(m: Net, r: Net, p: XMLNode, i: nat, c: XMLNode)
    requires Valid(m) && p in m && i <= |m[p].kids| && c in m && m[c].parent == null && PutIn(m, r, p, i, c)
    ensures Linked(r, p)
  {
    assert Linked(m, p);
    if c in m[p].kids {
      OneParent(m, p, c);
    }
    hide Valid;
    LongerListIsDistinct(m[p].kids, i, c);
    forall j | 0 <= j < |r[p].kids|
      ensures IsKid(r, p, j)
    {
      LongerListKid(m, r, p, i, c, j);
    }
    hide IsKid, Distinct;
  }

  lemma LongerListKid(m: Net, r: Net, p: XMLNode, i: nat, c: XMLNode, j: nat)
    requires p in m && Linked(m, p) && c in m && c !in m[p].kids
    requires j <= |m[p].kids| && i <= |m[p].kids| && PutIn(m, r, p, i, c)
    ensures IsKid(r, p, j)
  {
    var ks := m[p].kids;
    var ls := ks[..i] + [c] + ks[i..];
    assert r[p].kids == ls;
    assert r[ls[j]] == LinksWith(m, p, i, c, ls[j]) by {
      assert j != i ==> IsKid(m, p, if j < i then j else j - 1);
    }
    if j < i {
      assert ls[j] == ks[j] && IsKid(m, p, j);
    } else if j > i {
      assert ls[j] == ks[j - 1] && IsKid(m, p, j - 1);
    }
  }

  lemma ListBesideIsLinked(m: Net, r: Net, p: XMLNode, i: nat, c: XMLNode, n: XMLNode)
    requires Valid(m) && p in m && i <= |m[p].kids| && c in m && m[c].parent == null && PutIn(m, r, p, i, c)
    requires n in m && n != p
    ensures Linked(r, n)
  {
    assert Linked(m, p) && Linked(m, n);
    assert i > 0 ==> IsKid(m, p, i - 1);
    assert i < |m[p].kids| ==> IsKid(m, p, i);
    forall j | 0 <= j < |m[n].kids|
      ensures IsKid(r, n, j)
    {
      assert IsKid(m, n, j);
    }
  }

  lemma PlacedToo(m: Net, r: Net, p: XMLNode, i: nat, c: XMLNode, n: XMLNode)
    requires Valid(m) && p in m && i <= |m[p].kids| && PutIn(m, r, p, i, c) && n in m
    ensures Placed(r, n)
  {
    assert Placed(m, n);
    var ks := m[p].kids;
    if n == c {
      assert r[p].kids[i] == c;
    } else if m[n].parent == p {
      var j: nat :| j < |ks| && ks[j] == n;
      assert r[p].kids[if j < i then j else j + 1] == n;
    }
  }

  lemma ParentIsIn(m: Net, c: XMLNode)
    requires Valid(m) && c in m && m[c].parent != null
    ensures m[c].parent in m
  {
    assert Placed(m, c);
  }

  lemma KidsAreIn(m: Net, p: XMLNode)
    requires Valid(m) && p in m
    ensures forall k :: k in m[p].kids ==> k in m
  {
    forall k | k in m[p].kids
      ensures k in m
    {
      OneParent(m, p, k);
    }
  }

  lemma NotListed(m: Net, c: XMLNode)
    requires Valid(m) && c in m && m[c].parent == null
    ensures forall n :: n in m ==> c !in m[n].kids
  {
    forall n | n in m
      ensures c !in m[n].kids
    {
      if c in m[n].kids {
        OneParent(m, n, c);
      }
    }
  }

  lemma NothingToRemove(m: Net, c: XMLNode)
    requires Valid(m) && c in m && m[c].parent == null
    ensures Removed(m, m, c)
  {
    NotListed(m, c);
    hide Valid;
    assert forall n :: n in m ==> Without(m[n].kids, c) == m[n].kids;
  }

  lemma EndsOfList(m: Net, p: XMLNode)
    requires Valid(m) && p in m
    ensures m[p].firstChild == AfterGap(m[p].kids, 0) && m[p].lastChild == BeforeGap(m[p].kids, |m[p].kids|)
  {
    assert Linked(m, p);
  }

  lemma RemovedFacts(m: Net, m1: Net, c: XMLNode)
    requires Removed(m, m1, c) && c in m
    ensures Valid(m1) && m1.Keys == m.Keys && m1[c].parent == null
    ensures forall n {:trigger m1[n]} :: n in m && n != c ==> m1[n].parent == m[n].parent
  {
  }

  /** A removal and an insertion together. */
  lemma MovedIsAdded(m: Net, m1: Net, r: Net, p: XMLNode, i: nat, c: XMLNode)
    requires Removed(m, m1, c) && p in m && c in m && i <= |m1[p].kids| && PutIn(m1, r, p, i, c)
    ensures Added(m, r, p, c, m1[p].kids[..i] + [c] + m1[p].kids[i..])
  {
    assert m1[c].parent == null;
    PutInIsValid(m1, r, p, i, c);
    hide Valid;
    forall n | n in m
      ensures r[n].parent == (if n == c then p else m[n].parent)
      ensures r[n].kids == if n == p then m1[p].kids[..i] + [c] + m1[p].kids[i..] else Without(m[n].kids, c)
    {
      assert r[n] == LinksWith(m1, p, i, c, n);
      assert m1[n].kids == Without(m[n].kids, c);
    }
  }

  lemma PutAtEnds<T>(s: seq<T>, c: T)
    ensures s[..|s|] + [c] + s[|s|..] == s + [c]
    ensures s[..0] + [c] + s[0..] == [c] + s
  {
  }

  lemma AppendIsAdded(m: Net, m1: Net, r: Net, p: XMLNode, c: XMLNode)
    requires Removed(m, m1, c) && p in m && c in m && PutIn(m1, r, p, |m1[p].kids|, c)
    ensures Added(m, r, p, c, Without(m[p].kids, c) + [c])
  {
    assert m1[p].kids == Without(m[p].kids, c);
    hide Valid, PutIn, Without, Added, Removed;
    PutAtEnds(m1[p].kids, c);
    MovedIsAdded(m, m1, r, p, |m1[p].kids|, c);
  }

  lemma PrependIsAdded(m: Net, m1: Net, r: Net, p: XMLNode, c: XMLNode)
    requires Removed(m, m1, c) && p in m && c in m && PutIn(m1, r, p, 0, c)
    ensures Added(m, r, p, c, [c] + Without(m[p].kids, c))
  {
    assert m1[p].kids == Without(m[p].kids, c);
    hide Valid, PutIn, Without, Added, Removed;
    PutAtEnds(m1[p].kids, c);
    MovedIsAdded(m, m1, r, p, 0, c);
  }

  lemma {:induction false} AfterElementAt<T>(s: seq<T>, i: nat, y: T)
    requires i < |s| && Distinct(s)
    ensures AfterElement(s, s[i], y) == s[..i + 1] + [y] + s[i + 1..]
  {
    if i > 0 {
      AfterElementAt(s[1..], i - 1, y);
      assert s[1..][..i] == s[1..i + 1] && s[1..][i..] == s[i + 1..];
      assert [s[0]] + (s[1..i + 1] + [y] + s[i + 1..]) == s[..i + 1] + [y] + s[i + 1..];
    } else {
      assert [s[0], y] + s[1..] == s[..1] + [y] + s[1..];
    }
  }

  lemma BetweenIsAdded(m: Net, m1: Net, r: Net, p: XMLNode, i: nat, c: XMLNode)
    requires Removed(m, m1, c) && p in m && c in m && i < |m1[p].kids| && PutIn(m1, r, p, i + 1, c)
    ensures Added(m, r, p, c, PutAfter(m[p].kids, m1[p].kids[i], c))
  {
    MovedIsAdded(m, m1, r, p, i + 1, c);
    assert m1[p].kids == Without(m[p].kids, c);
    assert Linked(m1, p);
    AfterElementAt(m1[p].kids, i, c);
  }

  lemma {:induction false} AfterLastElement<T>(s: seq<T>, x: T, y: T)
    requires Distinct(s) && (x in s ==> s[|s| - 1] == x)
    ensures AfterElement(s, x, y) == s + [y]
  {
    if s == [] {
    } else if s[0] == x {
      assert |s| == 1;
    } else {
      assert x in s[1..] ==> x in s;
      AfterLastElement(s[1..], x, y);
      assert [s[0]] + (s[1..] + [y]) == s + [y];
    }
  }

  lemma WithoutLast<T>(s: seq<T>, c: T)
    requires Distinct(s) && s != [] && s[|s| - 1] != c
    ensures Distinct(Without(s, c)) && Without(s, c) != [] && Without(s, c)[|Without(s, c)| - 1] == s[|s| - 1]
  {
    hide Without;
    if c in s {
      var t: nat :| t < |s| && s[t] == c;
      WithoutAt(s, t);
      LeftOutIsDistinct(s, t);
      assert (s[..t] + s[t + 1..])[|s| - 2] == s[|s| - 1];
    }
  }

  lemma LeftOutIsDistinct<T>(s: seq<T>, t: nat)
    requires Distinct(s) && t < |s|
    ensures Distinct(s[..t] + s[t + 1..])
  {
    var r := s[..t] + s[t + 1..];
    forall i, j | 0 <= i < j < |r|
      ensures r[i] != r[j]
    {
      assert r[i] == s[if i < t then i else i + 1] && r[j] == s[if j < t then j else j + 1];
    }
  }

  /** Behind the last child is at the end. */
  lemma AfterLast(m: Net, p: XMLNode, x: XMLNode, c: XMLNode)
    requires Valid(m) && x in m && m[x].parent == p && m[x].next == null
    ensures p in m && PutAfter(m[p].kids, x, c) == Without(m[p].kids, c) + [c]
  {
    hide Valid, Without, Before, Distinct, AfterElement;
    var i := PlaceOf(m, x);
    var ks := m[p].kids;
    if x == c {
      WithoutAt(ks, i);
      LeftOutIsDistinct(ks, i);
    } else {
      WithoutLast(ks, c);
    }
    AfterLastElement(Without(ks, c), x, c);
  }

  /** A node that had another behind it, not counting a last child c, still has one without c. */
  lemma StillInside(m: Net, m1: Net, p: XMLNode, x: XMLNode, c: XMLNode)
    requires Valid(m) && Removed(m, m1, c) && x in m && c in m && m[x].parent == p && x != c
    requires m[x].next != null && (m[x].next == c ==> m[c].next != null)
    ensures m1[x].next != null
  {
    hide Valid, Without, Before, Distinct;
    var j := PlaceOf(m, x);
    var i := PlaceOf(m1, x);
    var ks := m[p].kids;
    assert m1[p].kids == Without(ks, c);
    if c in ks {
      OneParent(m, p, c);
      var t := PlaceOf(m, c);
      WithoutAt(ks, t);
      StillNotLast(ks, t, j, i);
    }
  }

  lemma StillNotLast<T>(ks: seq<T>, t: nat, j: nat, i: nat)
    requires t < |ks| && j < |ks| - 1 && j != t && (j + 1 == t ==> t < |ks| - 1)
    requires Distinct(ks[..t] + ks[t + 1..]) && i < |ks| - 1 && (ks[..t] + ks[t + 1..])[i] == ks[j]
    ensures i < |ks| - 2
  {
    var r := ks[..t] + ks[t + 1..];
    var k := if j < t then j else j - 1;
    assert r[k] == ks[j];
    SamePlace(r, i, k);
  }

  lemma SamePlace<T>(s: seq<T>, i: nat, k: nat)
    requires Distinct(s) && i < |s| && k < |s| && s[i] == s[k]
    ensures i == k
  {
  }

  // ----- when behind a child is safe -----

  /** The links after the preamble, which unlinks the place-th child of the node's parent, if it has one. */
  ghost predicate IsPreamble(m: Net, m1: Net, c: XMLNode, place: nat) {
    c in m && if m[c].parent == null then m1 == m else
      var p := m[c].parent;
      p in m && place < |m[p].kids| && m[p].kids[place] == c && TakenOut(m, m1, p, place)
  }

  /** The assignments of `InsertAfterChild` behind the preamble, one after the other. */
  function Chained(m: Net, p: XMLNode, x: XMLNode, c: XMLNode, ks: seq<XMLNode>): Net
    requires p in m && x in m && c in m && m[x].next != null && m[x].next in m
  {
    var a := m[c := m[c].(prev := x)];
    var b := a[c := a[c].(next := a[x].next)];
    var d := PrevSet(b, b[x].next, c);
    Placing(NextSet(d, x, c), p, c, p, ks)
  }

  /** They dereference no null and leave every list well linked. */
  ghost predicate ChainsWell(m: Net, p: XMLNode, x: XMLNode, c: XMLNode) {
    && p in m && x in m && c in m && m[x].next != null && m[x].next in m
    && Valid(Chained(m, p, x, c, AfterElement(m[p].kids, x, c)))
  }

  lemma NoSelfLink(m: Net, c: XMLNode)
    requires Valid(m) && c in m && m[c].parent != null
    ensures m[c].next != c
  {
    var i := PlaceOf(m, c);
  }

  lemma ChainedIsInserted(m: Net, p: XMLNode, x: XMLNode, c: XMLNode, ks: seq<XMLNode>)
    requires p in m && x in m && c in m && m[x].next != null && m[x].next in m && x != c && m[x].next != c
    ensures Chained(m, p, x, c, ks) == Inserted(m, p, c, x, m[x].next, ks)
  {
    var r, t := Chained(m, p, x, c, ks), Inserted(m, p, c, x, m[x].next, ks);
    forall n | n in m
      ensures n in r && n in t && r[n] == t[n]
    {
      InsertedAt(m, p, c, x, m[x].next, ks, n);
    }
  }

  lemma ChainedInside(m1: Net, p: XMLNode, x: XMLNode, c: XMLNode)
    requires Valid(m1) && x in m1 && c in m1 && m1[c].parent == null && m1[x].parent == p && m1[x].next != null
    ensures ChainsWell(m1, p, x, c)
  {
    hide Valid, PutIn, AfterElement, Chained, Inserted;
    var i := PlaceOf(m1, x);
    var ks := m1[p].kids;
    NotListed(m1, c);
    KidsAreIn(m1, p);
    AfterElementAt(ks, i, c);
    ChainedIsInserted(m1, p, x, c, ks[..i + 1] + [c] + ks[i + 1..]);
    InsertIsPutIn(m1, p, c, i + 1);
    PutInIsValid(m1, Chained(m1, p, x, c, ks[..i + 1] + [c] + ks[i + 1..]), p, i + 1, c);
  }

  lemma PreambleRemoves(m: Net, m1: Net, c: XMLNode, place: nat)
    requires Valid(m) && IsPreamble(m, m1, c, place)
    ensures Removed(m, m1, c)
  {
    hide Valid, TakenOut, Removed;
    if m[c].parent == null {
      NothingToRemove(m, c);
    } else {
      TakenOutIsRemoved(m, m1, m[c].parent, place);
    }
  }

  /**
   `InsertAfterChild` behind a child that is not the last one is safe exactly if
   a node is not inserted after itself, nor the last child after the one before
   it: the first leaves a node that is its own sibling, the second dereferences
   null.
   */
  lemma InsertAfterIsSafe(m: Net, m1: Net, p: XMLNode, x: XMLNode, c: XMLNode, place: nat)
    requires Valid(m) && x in m && m[x].parent == p && m[x].next != null && IsPreamble(m, m1, c, place)
    ensures ChainsWell(m1, p, x, c) <==> x != c && !(m[x].next == c && m[c].next == null)
  {
    hide Valid, Removed, AfterElement;
    PreambleRemoves(m, m1, c, place);
    RemovedFacts(m, m1, c);
    var i := PlaceOf(m, x);
    if x == c {
      if ChainsWell(m1, p, c, c) {
        NoSelfLink(Chained(m1, p, c, c, AfterElement(m1[p].kids, c, c)), c);
      }
    } else if m[x].next == c && m[c].next == null {
      NextHasParent(m, x);
      var j := PlaceOf(m, c);
      assert m1[x].next == null;
    } else {
      StillInside(m, m1, p, x, c);
      ChainedInside(m1, p, x, c);
    }
  }

  lemma NextHasParent(m: Net, x: XMLNode)
    requires Valid(m) && x in m && m[x].parent != null && m[x].next != null
    ensures m[x].next in m && m[m[x].next].parent == m[x].parent && m[m[x].next].prev == x
  {
    var p := m[x].parent;
    var i := PlaceOf(m, x);
    assert Linked(m, p) && IsKid(m, p, i + 1);
  }

  // ----- parents -----

  predicate ParentsAreIn(m: Net) { forall n {:trigger m[n]} :: n in m ==> m[n].parent != null ==> m[n].parent in m }

  /** Going up from n ends at a node without parent in at most k steps. */
  predicate IsGrounded(m: Net, n: XMLNode, k: nat)
    requires ParentsAreIn(m) && n in m
  {
    m[n].parent == null || (k > 0 && IsGrounded(m, m[n].parent, k - 1))
  }

  /** Going up from n comes by a within k steps. */
  predicate Reaches(m: Net, n: XMLNode, a: XMLNode, k: nat)
    requires ParentsAreIn(m) && n in m
  {
    n == a || (m[n].parent != null && k > 0 && Reaches(m, m[n].parent, a, k - 1))
  }

  /** The nodes form trees. */
  ghost predicate IsForest(m: Net) {
    ParentsAreIn(m) && forall n :: n in m ==> exists k :: IsGrounded(m, n, k)
  }

  /** r differs from m in the parent of c only. */
  ghost predicate Reparented(m: Net, r: Net, c: XMLNode, p: XMLNode?) {
    && r.Keys == m.Keys && c in m && (p != null ==> p in m)
    && forall n {:trigger r[n]} {:trigger m[n]} :: n in m ==> r[n].parent == if n == c then p else m[n].parent
  }

  lemma {:induction false} GroundedDeeper(m: Net, n: XMLNode, k: nat, l: nat)
    requires ParentsAreIn(m) && n in m && IsGrounded(m, n, k) && k <= l
    ensures IsGrounded(m, n, l)
    decreases k
  {
    if m[n].parent != null {
      GroundedDeeper(m, m[n].parent, k - 1, l - 1);
    }
  }

  /** Above a node that does not come by c nothing has changed. */
  lemma {:induction false} GroundedBeside(m: Net, r: Net, c: XMLNode, p: XMLNode?, n: XMLNode, k: nat)
    requires ParentsAreIn(m) && ParentsAreIn(r) && Reparented(m, r, c, p)
    requires n in m && IsGrounded(m, n, k) && !Reaches(m, n, c, k)
    ensures IsGrounded(r, n, k)
    decreases k
  {
    if m[n].parent != null {
      GroundedBeside(m, r, c, p, m[n].parent, k - 1);
    }
  }

  lemma {:induction false} GroundedBelow(m: Net, r: Net, c: XMLNode, p: XMLNode, j: nat, n: XMLNode, k: nat)
    requires ParentsAreIn(m) && ParentsAreIn(r) && Reparented(m, r, c, p)
    requires IsGrounded(r, p, j) && n in m && IsGrounded(m, n, k)
    ensures IsGrounded(r, n, k + j + 1)
    decreases k
  {
    if n == c {
      GroundedDeeper(r, p, j, k + j);
    } else if m[n].parent != null {
      GroundedBelow(m, r, c, p, j, m[n].parent, k - 1);
    }
  }

  /** Coming by c, going up in r leads on to p with fewer steps left. */
  lemma {:induction false} GroundedBeyond(m: Net, r: Net, c: XMLNode, p: XMLNode, n: XMLNode, k: nat, j: nat)
    requires ParentsAreIn(m) && ParentsAreIn(r) && Reparented(m, r, c, p)
    requires n in m && Reaches(m, n, c, k) && IsGrounded(r, n, j)
    ensures j > 0 && exists l: nat :: l < j && IsGrounded(r, p, l)
    decreases k
  {
    if n == c {
      assert IsGrounded(r, p, j - 1);
    } else {
      GroundedBeyond(m, r, c, p, m[n].parent, k - 1, j - 1);
      var l: nat :| l < j - 1 && IsGrounded(r, p, l);
    }
  }

  lemma {:induction false} NeverGrounded(m: Net, r: Net, c: XMLNode, p: XMLNode, k: nat, j: nat)
    requires ParentsAreIn(m) && ParentsAreIn(r) && Reparented(m, r, c, p) && Reaches(m, p, c, k)
    ensures !IsGrounded(r, p, j)
    decreases j
  {
    if IsGrounded(r, p, j) {
      GroundedBeyond(m, r, c, p, p, k, j);
      var l: nat :| l < j && IsGrounded(r, p, l);
      NeverGrounded(m, r, c, p, k, l);
    }
  }

  /** Some number of steps up from n leads to a. */
  ghost predicate IsAncestor(m: Net, a: XMLNode, n: XMLNode)
    requires ParentsAreIn(m) && n in m
  {
    exists k: nat :: Reaches(m, n, a, k)
  }

  lemma LoopIsNoForest(m: Net, r: Net, c: XMLNode, p: XMLNode)
    requires ParentsAreIn(m) && Reparented(m, r, c, p) && IsAncestor(m, c, p)
    ensures !IsForest(r)
  {
    if IsForest(r) {
      var k: nat :| Reaches(m, p, c, k);
      assert p in r;
      var j: nat :| IsGrounded(r, p, j);
      NeverGrounded(m, r, c, p, k, j);
    }
  }

  /** Giving c the parent p keeps the trees trees exactly if c is not p and not above it. */
  lemma InsertionKeepsForest(m: Net, r: Net, c: XMLNode, p: XMLNode)
    requires IsForest(m) && Reparented(m, r, c, p)
    ensures IsForest(r) <==> !IsAncestor(m, c, p)
  {
    if IsAncestor(m, c, p) {
      LoopIsNoForest(m, r, c, p);
    } else {
      assert ParentsAreIn(r);
      var j: nat :| IsGrounded(m, p, j);
      GroundedBeside(m, r, c, p, p, j);
      forall n | n in r
        ensures exists k :: IsGrounded(r, n, k)
      {
        var k: nat :| IsGrounded(m, n, k);
        GroundedBelow(m, r, c, p, j, n, k);
      }
    }
  }

  /** Taking a node out always does. */
  lemma RemovalKeepsForest(m: Net, r: Net, c: XMLNode)
    requires IsForest(m) && Reparented(m, r, c, null)
    ensures IsForest(r)
  {
    assert ParentsAreIn(r);
    forall n | n in r
      ensures exists k :: IsGrounded(r, n, k)
    {
      var k: nat :| IsGrounded(m, n, k);
      GroundedShorter(m, r, c, n, k);
    }
  }

  lemma {:induction false} GroundedShorter(m: Net, r: Net, c: XMLNode, n: XMLNode, k: nat)
    requires ParentsAreIn(m) && ParentsAreIn(r) && Reparented(m, r, c, null) && n in m && IsGrounded(m, n, k)
    ensures IsGrounded(r, n, k)
    decreases k
  {
    if n != c && m[n].parent != null {
      GroundedShorter(m, r, c, m[n].parent, k - 1);
    }
  }

  /** The insertions above in these terms. */
  lemma AddedIsReparented(m: Net, r: Net, p: XMLNode, c: XMLNode, ks: seq<XMLNode>)
    requires Added(m, r, p, c, ks) && p in m && c in m
    ensures Reparented(m, r, c, p)
  {
    assert forall n {:trigger r[n]} :: n in m ==> r[n].parent == if n == c then p else m[n].parent;
    hide Added;
  }
}
