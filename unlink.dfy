/**
 * The pointer writes of updateElt (PairingPQ.h:319-334) that take a node
 * out of its parent's child list, and why they store the cut tree.
 */
module Unlink {
  import opened Trees
  import opened Update
  import opened Arena

  /**
   * The unlink writes are well defined at h: its previous node is a slot,
   * its sibling is null or a slot, and neither is h or the other.
   */
  ghost predicate UnlinkOk(ns: seq<Slot>, h: int)
  {
    && 0 <= h < |ns| && 0 <= ns[h].previous < |ns|
    && (ns[h].sibling == -1 || 0 <= ns[h].sibling < |ns|)
    && ns[h].previous != ns[h].sibling && ns[h].previous != h && ns[h].sibling != h
  }

  /**
   * Unlinking node h from its left neighbour (PairingPQ.h:319-334): the
   * node before h, `p`, is h's parent when h is the leftmost child and h's
   * left sibling otherwise; the link of p that pointed at h now points at
   * h's right sibling `nx`, and nx, if any, points back to p.
   */
  function UnlinkSlots(ns: seq<Slot>, h: int): (r: seq<Slot>)
    requires 0 <= h < |ns| && 0 <= ns[h].previous < |ns|
    requires ns[h].sibling == -1 || 0 <= ns[h].sibling < |ns|
    ensures |r| == |ns|
    ensures forall x | 0 <= x < |ns| && x != ns[h].previous && x != ns[h].sibling :: r[x] == ns[x]
  {
    var p := ns[h].previous;
    var nx := ns[h].sibling;
    var n1 := if ns[p].child == h then ns[p := ns[p].(child := nx)] else ns[p := ns[p].(sibling := nx)];
    if nx != -1 then n1[nx := n1[nx].(previous := p)] else n1
  }

  /** The effect of those writes, slot by slot. */
  ghost predicate Unlinked(ns: seq<Slot>, r: seq<Slot>, h: int)
  {
    && 0 <= h < |ns| && |r| == |ns|
    && var p := ns[h].previous;
    && var nx := ns[h].sibling;
    && 0 <= p < |ns| && (nx == -1 || 0 <= nx < |ns|)
    && r[p] == (if ns[p].child == h then ns[p].(child := nx) else ns[p].(sibling := nx))
    && (nx != -1 ==> r[nx] == ns[nx].(previous := p))
    && forall x | 0 <= x < |ns| && x != p && x != nx :: r[x] == ns[x]
  }

  lemma UnlinkSlotsUnlinked(ns: seq<Slot>, h: int)
    requires 0 <= h < |ns| && 0 <= ns[h].previous < |ns|
    requires ns[h].sibling == -1 || 0 <= ns[h].sibling < |ns|
    requires ns[h].previous != ns[h].sibling
    ensures Unlinked(ns, UnlinkSlots(ns, h), h)
  {
  }

  /**
   * A slot other than h's right sibling keeps its `previous` and `sibling`
   * links, unless it is h's `previous` node and does not point at h as its
   * child.
   */
  lemma UnlinkedKeeps(ns: seq<Slot>, r: seq<Slot>, h: int, x: int)
    requires Unlinked(ns, r, h) && 0 <= x < |ns| && x != ns[h].sibling
    requires x == ns[h].previous ==> ns[x].child == h
    ensures r[x].previous == ns[x].previous && r[x].sibling == ns[x].sibling
  {
  }

  /** A subtree found in a stored forest is stored. */
  lemma {:induction false} FindLinked(ks: seq<Tree>, h: int, ns: seq<Slot>)
    requires forall i | 0 <= i < |ks| :: Linked(ks[i], ns)
    requires Find(ks, h).Some?
    ensures Linked(Find(ks, h).value, ns)
    decreases ks
  {
    if ks[0].id != h {
      if Find(ks[0].kids, h).Some? {
        assert Linked(ks[0], ns);
        forall i | 0 <= i < |ks[0].kids| ensures Linked(ks[0].kids[i], ns) { LinkedKid(ks[0], i, ns); }
        FindLinked(ks[0].kids, h, ns);
      } else {
        forall i | 0 <= i < |ks[1..]| ensures Linked(ks[1..][i], ns) { assert ks[1..][i] == ks[i + 1]; }
        FindLinked(ks[1..], h, ns);
      }
    }
  }

  /**
   * Where the neighbours of a live non-root node h sit: its `previous`
   * node p and its `sibling` nx are nodes of the tree outside h's own
   * subtree, p is the root only if h is the root's leftmost child, and
   * nx is never the root.
   */
  lemma {:induction false} UnlinkWhere(t: Tree, h: int, ns: seq<Slot>)
    requires Linked(t, ns) && Distinct(t) && h in ForestNodes(t.kids)
    ensures 0 <= h < |ns| && Find(t.kids, h).Some? && Find(t.kids, h).value.id == h
    ensures var p := ns[h].previous;
      && 0 <= p < |ns| && p in Nodes(t) && p !in Nodes(Find(t.kids, h).value)
      && (p == t.id ==> ns[p].child == h)
    ensures var nx := ns[h].sibling;
      && (nx == -1 || (nx in ForestNodes(t.kids) && nx !in Nodes(Find(t.kids, h).value)))
      && nx != ns[h].previous
    decreases t
  {
    DistinctKids(t);
    var j := KidOf(t.kids, h);
    var k := t.kids[j];
    LinkedKid(t, j, ns);
    ForestContains(t.kids, j);
    if k.id == h {
      CutDirect(t.kids, j, h);
      UnlinkWhereDirect(t, j, ns);
    } else {
      assert h in ForestNodes(k.kids);
      CutDeep(t.kids, j, h);
      UnlinkWhere(k, h, ns);
      assert forall x | x in Nodes(k) :: x in ForestNodes(t.kids);
    }
    FindSound(t.kids, h);
  }

  /** The case of UnlinkWhere where h is the j-th child of the root. */
  lemma UnlinkWhereDirect(t: Tree, j: int, ns: seq<Slot>)
    requires Linked(t, ns) && Distinct(t) && 0 <= j < |t.kids|
    ensures 0 <= t.kids[j].id < |ns|
    ensures var h := t.kids[j].id; var p := ns[h].previous; var nx := ns[h].sibling;
      && 0 <= p < |ns| && p in Nodes(t) && p !in Nodes(t.kids[j])
      && (p == t.id ==> ns[p].child == h)
      && (nx == -1 || (nx in ForestNodes(t.kids) && nx !in Nodes(t.kids[j])))
      && nx != p
  {
    DirectPrevious(t, j, ns);
    DirectSibling(t, j, ns);
    if j > 0 && j + 1 < |t.kids| { NotBelow(t, j - 1, j + 1); }
  }

  /** The `previous` node of the j-th child: the root or the left sibling. */
  lemma DirectPrevious(t: Tree, j: int, ns: seq<Slot>)
    requires Linked(t, ns) && Distinct(t) && 0 <= j < |t.kids|
    ensures 0 <= t.kids[j].id < |ns|
    ensures var h := t.kids[j].id; var p := ns[h].previous;
      && p == (if j == 0 then t.id else t.kids[j - 1].id)
      && 0 <= p < |ns| && p in Nodes(t) && p !in Nodes(t.kids[j])
      && (p == t.id ==> ns[p].child == h)
  {
    LinkedKid(t, j, ns);
    LeftNeighbour(t, j);
    if j > 0 { LinkedKid(t, j - 1, ns); }
  }

  lemma LeftNeighbour(t: Tree, j: int)
    requires Distinct(t) && 0 <= j < |t.kids|
    ensures var x := if j == 0 then t.id else t.kids[j - 1].id;
      x in Nodes(t) && x !in Nodes(t.kids[j]) && (j > 0 ==> x != t.id)
  {
    if j == 0 {
      NotBelow(t, 0, 0);
      assert t.id in Nodes(t);
    } else {
      LeftSibling(t, j);
    }
  }

  lemma LeftSibling(t: Tree, j: int)
    requires Distinct(t) && 0 < j < |t.kids|
    ensures t.kids[j - 1].id in Nodes(t) && t.kids[j - 1].id !in Nodes(t.kids[j])
    ensures t.kids[j - 1].id != t.id
  {
    var x := t.kids[j - 1].id;
    NotBelow(t, j - 1, j);
    NotBelow(t, j - 1, j - 1);
    KidRootIn(t.kids, j - 1);
    KidInNodes(t, x);
  }

  lemma KidInNodes(t: Tree, x: int)
    requires x in ForestNodes(t.kids)
    ensures x in Nodes(t)
  {
  }

  /** The roots of the children of a node with distinct handles are distinct, and not the node. */
  lemma RootsDistinct(t: Tree)
    requires Distinct(t)
    ensures forall a, b | 0 <= a < b < |t.kids| :: t.kids[a].id != t.kids[b].id
    ensures forall a | 0 <= a < |t.kids| :: t.kids[a].id != t.id
  {
    forall a, b | 0 <= a < b < |t.kids| ensures t.kids[a].id != t.kids[b].id { NotBelow(t, a, b); }
    forall a | 0 <= a < |t.kids| ensures t.kids[a].id != t.id { NotBelow(t, a, a); }
  }

  /** The `sibling` of the j-th child: the right sibling, never the root. */
  lemma DirectSibling(t: Tree, j: int, ns: seq<Slot>)
    requires Linked(t, ns) && Distinct(t) && 0 <= j < |t.kids|
    ensures 0 <= t.kids[j].id < |ns|
    ensures var h := t.kids[j].id; var nx := ns[h].sibling;
      && nx == (if j + 1 < |t.kids| then t.kids[j + 1].id else -1)
      && (nx == -1 || (nx in ForestNodes(t.kids) && nx !in Nodes(t.kids[j]) && nx != t.id))
  {
    LinkedKid(t, j, ns);
    if j + 1 < |t.kids| {
      RightSibling(t, j);
    }
  }

  lemma RightSibling(t: Tree, j: int)
    requires Distinct(t) && 0 <= j < |t.kids| - 1
    ensures var x := t.kids[j + 1].id;
      x in ForestNodes(t.kids) && x !in Nodes(t.kids[j]) && x != t.id
  {
    NotBelow(t, j + 1, j);
    NotBelow(t, j + 1, j + 1);
    KidFacts(t, j + 1);
  }

  /**
   * Unlinking stores the cut tree: the writes of updateElt that take the
   * live non-root node h out of its child list leave exactly the tree
   * without h's subtree.
   */
  lemma {:induction false} CutLinked(t: Tree, h: int, ns: seq<Slot>, r: seq<Slot>)
    requires Linked(t, ns) && Distinct(t) && h in ForestNodes(t.kids)
    requires Unlinked(ns, r, h)
    ensures Linked(Cut(t, h), r)
    decreases t
  {
    UnlinkWhere(t, h, ns);
    DistinctKids(t);
    var j := KidOf(t.kids, h);
    var k := t.kids[j];
    LinkedKid(t, j, ns);
    if k.id == h {
      CutDirect(t.kids, j, h);
      CutLinkedDirect(t, j, ns, r);
    } else {
      assert h in ForestNodes(k.kids);
      CutDeep(t.kids, j, h);
      UnlinkWhere(k, h, ns);
      CutLinked(k, h, ns, r);
      CutLinkedDeep(t, j, h, ns, r);
    }
  }

  /** The case of CutLinked where h is the i-th child of the root. */
  lemma CutLinkedDirect(t: Tree, i: int, ns: seq<Slot>, r: seq<Slot>)
    requires Linked(t, ns) && Distinct(t) && 0 <= i < |t.kids|
    requires Unlinked(ns, r, t.kids[i].id)
    ensures Linked(Node(t.id, t.elt, t.kids[..i] + t.kids[i + 1..]), r)
  {
    var ks := t.kids[..i] + t.kids[i + 1..];
    CutDirectRoot(t, i, ns, r);
    forall m | 0 <= m < |ks| ensures KidLinked(t.id, ks, m, r) && Linked(ks[m], r) {
      CutDirectKid(t, i, ns, r, m);
    }
    assert KidsLinked(t.id, ks, r);
  }

  /** The root keeps its element; its leftmost child is the first one left. */
  lemma CutDirectRoot(t: Tree, i: int, ns: seq<Slot>, r: seq<Slot>)
    requires Linked(t, ns) && Distinct(t) && 0 <= i < |t.kids|
    requires Unlinked(ns, r, t.kids[i].id)
    ensures 0 <= t.id < |r| && r[t.id].elt == t.elt
    ensures r[t.id].child == FirstId(t.kids[..i] + t.kids[i + 1..])
  {
    var ks := t.kids[..i] + t.kids[i + 1..];
    DirectPrevious(t, i, ns);
    DirectSibling(t, i, ns);
    var h := t.kids[i].id;
    var p := ns[h].previous;
    var nx := ns[h].sibling;
    if i > 0 {
      NotBelow(t, i - 1, i - 1);
      assert p != t.id;
      assert ks[0] == t.kids[0];
    } else {
      if 1 < |t.kids| { assert ks[0] == t.kids[1]; }
    }
  }

  /** One child of the root in the case of CutLinkedDirect: its subtree is still stored ... */
  lemma CutDirectKid(t: Tree, i: int, ns: seq<Slot>, r: seq<Slot>, m: int)
    requires Linked(t, ns) && Distinct(t) && 0 <= i < |t.kids|
    requires Unlinked(ns, r, t.kids[i].id)
    requires 0 <= m < |t.kids| - 1
    ensures KidLinked(t.id, t.kids[..i] + t.kids[i + 1..], m, r)
    ensures Linked((t.kids[..i] + t.kids[i + 1..])[m], r)
  {
    var ks := t.kids[..i] + t.kids[i + 1..];
    var q := if m < i then m else m + 1;
    assert ks[m] == t.kids[q];
    CutDirectSubtree(t, i, ns, r, q);
    CutDirectNeighbours(t, i, ns, r, m);
  }

  /** Handles of a node with distinct handles: a child's handle is not below any child. */
  lemma NotBelow(t: Tree, a: int, b: int)
    requires Distinct(t) && 0 <= a < |t.kids| && 0 <= b < |t.kids|
    ensures t.kids[a].id !in ForestNodes(t.kids[b].kids)
    ensures t.id !in Nodes(t.kids[b]) && t.id !in ForestNodes(t.kids[b].kids) && t.id != t.kids[b].id
    ensures a != b ==> t.kids[a].id != t.kids[b].id && t.kids[a].id !in Nodes(t.kids[b])
  {
    KidFacts(t, b);
    if a != b { KidsDisjoint(t, a, b); }
  }

  /** The left sibling of a child does not point at it as its own child. */
  lemma LeftChildNot(t: Tree, i: int, ns: seq<Slot>)
    requires Linked(t, ns) && Distinct(t) && 0 < i < |t.kids|
    ensures 0 <= t.kids[i - 1].id < |ns| && ns[t.kids[i - 1].id].child != t.kids[i].id
  {
    LinkedKid(t, i - 1, ns);
    LinkedKid(t, i, ns);
    var l := t.kids[i - 1];
    NotBelow(t, i, i - 1);
    if |l.kids| > 0 { ForestContains(l.kids, 0); assert l.kids[0].id in Nodes(l.kids[0]); }
  }

  /**
   * A stored tree stays stored under the unlink writes when they touch
   * at most its root's `previous` or `sibling` link.
   */
  lemma RootOnlyLinked(k: Tree, ns: seq<Slot>, r: seq<Slot>, h: int)
    requires Linked(k, ns) && Unlinked(ns, r, h)
    requires ns[h].previous !in ForestNodes(k.kids)
    requires ns[h].sibling == -1 || ns[h].sibling !in ForestNodes(k.kids)
    requires ns[h].previous == k.id ==> ns[k.id].child != h
    ensures Linked(k, r)
  {
    forall y | y in ForestNodes(k.kids) && 0 <= y < |ns| ensures r[y] == ns[y] {
    }
    LinkedFrame(k, ns, r);
  }

  lemma CutDirectSubtree(t: Tree, i: int, ns: seq<Slot>, r: seq<Slot>, q: int)
    requires Linked(t, ns) && Distinct(t) && 0 <= i < |t.kids|
    requires Unlinked(ns, r, t.kids[i].id)
    requires 0 <= q < |t.kids| && q != i
    ensures Linked(t.kids[q], r)
  {
    var h := t.kids[i].id;
    LinkedKid(t, i, ns);
    LinkedKid(t, q, ns);
    NotBelow(t, q, q);
    if i > 0 {
      NotBelow(t, i - 1, q);
      LeftChildNot(t, i, ns);
    }
    if i + 1 < |t.kids| { NotBelow(t, i + 1, q); }
    RootOnlyLinked(t.kids[q], ns, r, h);
  }

  lemma CutDirectNeighbours(t: Tree, i: int, ns: seq<Slot>, r: seq<Slot>, m: int)
    requires Linked(t, ns) && Distinct(t) && 0 <= i < |t.kids|
    requires Unlinked(ns, r, t.kids[i].id)
    requires 0 <= m < |t.kids| - 1
    ensures KidLinked(t.id, t.kids[..i] + t.kids[i + 1..], m, r)
  {
    var ks := t.kids[..i] + t.kids[i + 1..];
    forall a | 0 <= a < |ks| ensures ks[a] == t.kids[if a < i then a else a + 1] {
    }
    var q := if m < i then m else m + 1;
    var h := t.kids[i].id;
    var x := t.kids[q].id;
    LinkedKid(t, i, ns);
    LinkedKid(t, q, ns);
    RootsDistinct(t);
    if q == i - 1 { LeftChildNot(t, i, ns); }
    UnlinkedSlot(ns, r, h, x,
      if m == 0 then t.id else ks[m - 1].id,
      if m + 1 < |ks| then ks[m + 1].id else -1);
  }

  /**
   * The links of slot x after the unlink writes for h, from where x sits:
   * h's left neighbour takes h's right sibling, h's right sibling takes
   * h's left neighbour, and any other slot keeps its links.
   */
  lemma UnlinkedSlot(ns: seq<Slot>, r: seq<Slot>, h: int, x: int, pv: int, sb: int)
    requires Unlinked(ns, r, h) && 0 <= x < |ns| && ns[h].previous != ns[h].sibling
    requires x == ns[h].previous ==> ns[x].child != h && ns[x].previous == pv && sb == ns[h].sibling
    requires x == ns[h].sibling ==> pv == ns[h].previous && ns[x].sibling == sb
    requires x != ns[h].previous && x != ns[h].sibling ==> ns[x].previous == pv && ns[x].sibling == sb
    ensures r[x].previous == pv && r[x].sibling == sb
  {
  }

  /** The case of CutLinked where h lies below the root's j-th child. */
  lemma CutLinkedDeep(t: Tree, j: int, h: int, ns: seq<Slot>, r: seq<Slot>)
    requires Linked(t, ns) && Distinct(t) && 0 <= j < |t.kids|
    requires Unlinked(ns, r, h) && Linked(Cut(t.kids[j], h), r)
    requires var p := ns[h].previous; var nx := ns[h].sibling;
      && p in Nodes(t.kids[j]) && (p == t.kids[j].id ==> ns[p].child == h)
      && (nx == -1 || nx in ForestNodes(t.kids[j].kids))
    ensures Linked(Node(t.id, t.elt, t.kids[j := Cut(t.kids[j], h)]), r)
  {
    var ks := t.kids[j := Cut(t.kids[j], h)];
    DistinctKids(t);
    KidFacts(t, j);
    assert t.id != ns[h].previous && t.id != ns[h].sibling;
    assert r[t.id] == ns[t.id];
    if 0 < |ks| { assert ks[0].id == t.kids[0].id; }
    forall m | 0 <= m < |ks| ensures KidLinked(t.id, ks, m, r) && Linked(ks[m], r) {
      CutDeepKid(t, j, h, ns, r, m);
    }
    assert KidsLinked(t.id, ks, r);
  }

  /** One child of the root in the case of CutLinkedDeep. */
  lemma CutDeepKid(t: Tree, j: int, h: int, ns: seq<Slot>, r: seq<Slot>, m: int)
    requires Linked(t, ns) && Distinct(t) && 0 <= j < |t.kids|
    requires Unlinked(ns, r, h) && Linked(Cut(t.kids[j], h), r)
    requires var p := ns[h].previous; var nx := ns[h].sibling;
      && p in Nodes(t.kids[j]) && (p == t.kids[j].id ==> ns[p].child == h)
      && (nx == -1 || nx in ForestNodes(t.kids[j].kids))
    requires 0 <= m < |t.kids|
    ensures KidLinked(t.id, t.kids[j := Cut(t.kids[j], h)], m, r)
    ensures Linked(t.kids[j := Cut(t.kids[j], h)][m], r)
  {
    CutDeepLinks(t, j, h, ns, r, m);
    if m != j {
      CutDeepOther(t, j, h, ns, r, m);
    }
  }

  /** The neighbour links of the m-th child survive the unlink writes below the j-th child. */
  lemma CutDeepLinks(t: Tree, j: int, h: int, ns: seq<Slot>, r: seq<Slot>, m: int)
    requires Linked(t, ns) && Distinct(t) && 0 <= j < |t.kids|
    requires Unlinked(ns, r, h)
    requires var p := ns[h].previous; var nx := ns[h].sibling;
      && p in Nodes(t.kids[j]) && (p == t.kids[j].id ==> ns[p].child == h)
      && (nx == -1 || nx in ForestNodes(t.kids[j].kids))
    requires 0 <= m < |t.kids|
    ensures KidLinked(t.id, t.kids[j := Cut(t.kids[j], h)], m, r)
  {
    var c := Cut(t.kids[j], h);
    assert c.id == t.kids[j].id;
    var ks := t.kids[j := c];
    forall i | 0 <= i < |ks| ensures ks[i].id == t.kids[i].id {
    }
    var x := t.kids[m].id;
    LinkedKid(t, m, ns);
    NotBelow(t, m, j);
    assert x == ns[h].previous ==> ns[x].child == h by {
      if x == ns[h].previous && m != j {
        assert x !in Nodes(t.kids[j]);
      }
    }
    UnlinkedKeeps(ns, r, h, x);
  }

  /** Any other child's subtree is untouched by the unlink writes below the j-th child. */
  lemma CutDeepOther(t: Tree, j: int, h: int, ns: seq<Slot>, r: seq<Slot>, m: int)
    requires Linked(t, ns) && Distinct(t) && 0 <= j < |t.kids|
    requires Unlinked(ns, r, h)
    requires var p := ns[h].previous; var nx := ns[h].sibling;
      && p in Nodes(t.kids[j]) && (nx == -1 || nx in ForestNodes(t.kids[j].kids))
    requires 0 <= m < |t.kids| && m != j
    ensures Linked(t.kids[m], r)
  {
    LinkedKid(t, m, ns);
    KidsDisjoint(t, m, j);
    KidFacts(t, m);
    KidFacts(t, j);
    NotBelow(t, m, j);
    RootOnlyLinked(t.kids[m], ns, r, h);
  }
}
