/**
 * The nodes of PairingPQ.h (lines 20-43) as slots of an arena: a node is
 * an index, and its `child`, `sibling` and `previous` pointers are indices
 * with -1 for nullptr. Linked(t, ns) says that the slots ns store the tree
 * t in the pairing-heap representation: every node points to its leftmost
 * child, every child to its right sibling, and `previous` points to the
 * left sibling or, for a leftmost child, to the parent.
 */
module Arena {
  import opened Trees

  /** One Node of the heap; -1 is the null link. */
  datatype Slot = Slot(elt: int, child: int, sibling: int, previous: int)

  /** A fresh node (PairingPQ.h:22-23): the element and three null links. */
  function Fresh(v: int): Slot
  {
    Slot(v, -1, -1, -1)
  }

  /** The `previous` and `sibling` links of the i-th child in the child list ks of p. */
  ghost predicate KidLinked(p: int, ks: seq<Tree>, i: int, ns: seq<Slot>)
    requires 0 <= i < |ks|
  {
    var x := ks[i].id;
    && 0 <= x < |ns|
    && ns[x].previous == (if i == 0 then p else ks[i - 1].id)
    && ns[x].sibling == (if i + 1 < |ks| then ks[i + 1].id else -1)
  }

  /**
   * The slots store the tree t. The root's own `previous` and `sibling`
   * are not constrained: after pop they are left stale.
   */
  ghost predicate Linked(t: Tree, ns: seq<Slot>)
    decreases t, 1
  {
    && 0 <= t.id < |ns|
    && ns[t.id].elt == t.elt
    && ns[t.id].child == FirstId(t.kids)
    && KidsLinked(t.id, t.kids, ns)
  }

  /** The child list ks of p is stored: each child is linked to its neighbours, and stored. */
  ghost predicate KidsLinked(p: int, ks: seq<Tree>, ns: seq<Slot>)
    decreases ks, 0
  {
    forall i {:trigger KidLinked(p, ks, i, ns)} | 0 <= i < |ks| :: KidLinked(p, ks, i, ns) && Linked(ks[i], ns)
  }

  /** Every handle of a stored tree is a slot of the arena. */
  lemma {:induction false} LinkedIds(t: Tree, ns: seq<Slot>)
    requires Linked(t, ns)
    ensures forall x | x in Nodes(t) :: 0 <= x < |ns|
    decreases t, 1
  {
    forall i | 0 <= i < |t.kids| ensures Linked(t.kids[i], ns) { LinkedKid(t, i, ns); }
    LinkedForestIds(t.kids, ns);
  }

  lemma {:induction false} LinkedForestIds(ks: seq<Tree>, ns: seq<Slot>)
    requires forall i | 0 <= i < |ks| :: Linked(ks[i], ns)
    ensures forall x | x in ForestNodes(ks) :: 0 <= x < |ns|
    decreases ks, 0
  {
    if |ks| > 0 {
      LinkedIds(ks[0], ns);
      assert forall i | 0 <= i < |ks[1..]| :: Linked(ks[1..][i], ns) by {
        forall i | 0 <= i < |ks[1..]| ensures Linked(ks[1..][i], ns) { assert ks[1..][i] == ks[i + 1]; }
      }
      LinkedForestIds(ks[1..], ns);
    }
  }

  /** The tree of a child is stored in the same slots. */
  lemma LinkedKid(t: Tree, i: int, ns: seq<Slot>)
    requires Linked(t, ns) && 0 <= i < |t.kids|
    ensures Linked(t.kids[i], ns) && KidLinked(t.id, t.kids, i, ns)
  {
    assert KidLinked(t.id, t.kids, i, ns);
  }

  /**
   * A stored tree stays stored when its root keeps its element and child
   * link and the slots below the root are unchanged; slots may be appended.
   */
  lemma {:induction false} LinkedFrame(t: Tree, ns: seq<Slot>, ns': seq<Slot>)
    requires Linked(t, ns) && |ns| <= |ns'|
    requires ns'[t.id].elt == ns[t.id].elt && ns'[t.id].child == ns[t.id].child
    requires forall x | x in ForestNodes(t.kids) && 0 <= x < |ns| :: ns'[x] == ns[x]
    ensures Linked(t, ns')
    decreases t, 1
  {
    KidsFrame(t.id, t.kids, ns, ns');
  }

  lemma {:induction false} KidsFrame(p: int, ks: seq<Tree>, ns: seq<Slot>, ns': seq<Slot>)
    requires KidsLinked(p, ks, ns) && |ns| <= |ns'|
    requires forall x | x in ForestNodes(ks) && 0 <= x < |ns| :: ns'[x] == ns[x]
    ensures KidsLinked(p, ks, ns')
    decreases ks, 0
  {
    forall i | 0 <= i < |ks|
      ensures KidLinked(p, ks, i, ns') && Linked(ks[i], ns')
    {
      var k := ks[i];
      ForestContains(ks, i);
      assert k.id in Nodes(k);
      assert KidLinked(p, ks, i, ns);
      assert forall x | x in ForestNodes(k.kids) :: x in Nodes(k);
      LinkedFrame(k, ns, ns');
    }
  }

  /** The same tree with a new element at its root. */
  lemma LinkedRelabel(t: Tree, v: int, ns: seq<Slot>, ns': seq<Slot>)
    requires Linked(t, ns) && |ns| <= |ns'|
    requires ns'[t.id].elt == v && ns'[t.id].child == ns[t.id].child
    requires forall x | x in ForestNodes(t.kids) && 0 <= x < |ns| :: ns'[x] == ns[x]
    ensures Linked(Node(t.id, v, t.kids), ns')
  {
    KidsFrame(t.id, t.kids, ns, ns');
  }

  // ---------------------------------------------------------------------
  // meld on the arena

  /**
   * The pointer writes of meld (PairingPQ.h:377-384) once the winner w and
   * the loser l are chosen, in the order the source performs them.
   */
  function LinkSlots(ns: seq<Slot>, w: int, l: int): (r: seq<Slot>)
    requires 0 <= w < |ns| && 0 <= l < |ns|
    requires ns[w].child == -1 || 0 <= ns[w].child < |ns|
    ensures |r| == |ns|
    ensures forall x | 0 <= x < |ns| && x != w && x != l && x != ns[w].child :: r[x] == ns[x]
  {
    var lm := ns[w].child;
    var n1 := ns[l := ns[l].(sibling := lm)];
    var n2 := if lm != -1 then n1[lm := n1[lm].(previous := l)] else n1;
    var n3 := n2[l := n2[l].(previous := w)];
    n3[w := n3[w].(child := l)]
  }

  /**
   * The effect of meld's writes, slot by slot: w gets l as its leftmost
   * child, l gets w's old leftmost child as its sibling and w as its
   * previous node, that old leftmost child gets l as its previous node,
   * and no other slot changes.
   */
  ghost predicate Melded(ns: seq<Slot>, r: seq<Slot>, w: int, l: int)
    requires 0 <= w < |ns| && 0 <= l < |ns|
    requires ns[w].child == -1 || 0 <= ns[w].child < |ns|
  {
    var lm := ns[w].child;
    && |r| == |ns|
    && r[w] == ns[w].(child := l)
    && r[l] == ns[l].(sibling := lm, previous := w)
    && (lm != -1 ==> r[lm] == ns[lm].(previous := l))
    && forall x | 0 <= x < |ns| && x != w && x != l && x != lm :: r[x] == ns[x]
  }

  /**
   * Slot by slot, meld's writes touch only w, l and w's old leftmost
   * child, and change no element and not w's sibling link.
   */
  lemma MeldedFrame(ns: seq<Slot>, r: seq<Slot>, w: int, l: int, mw: multiset<int>, ml: multiset<int>)
    requires 0 <= w < |ns| && 0 <= l < |ns|
    requires ns[w].child == -1 || 0 <= ns[w].child < |ns|
    requires Melded(ns, r, w, l)
    requires w in mw && l in ml && (ns[w].child == -1 || ns[w].child in mw)
    ensures forall x | 0 <= x < |ns| && x !in mw && x !in ml :: r[x] == ns[x]
    ensures forall x | 0 <= x < |ns| :: r[x].elt == ns[x].elt
    ensures r[w].sibling == ns[w].sibling
  {
  }

  /** The writes have that effect when the three slots involved are different. */
  lemma LinkSlotsMelded(ns: seq<Slot>, w: int, l: int)
    requires 0 <= w < |ns| && 0 <= l < |ns| && w != l
    requires ns[w].child == -1 || (0 <= ns[w].child < |ns| && ns[w].child != w && ns[w].child != l)
    ensures Melded(ns, LinkSlots(ns, w, l), w, l)
  {
  }

  /** What distinct handles say about the first and the j-th child of a node. */
  lemma KidFacts(w: Tree, j: int)
    requires Distinct(w) && 0 <= j < |w.kids|
    ensures w.kids[j].id in Nodes(w.kids[j]) && w.kids[j].id !in ForestNodes(w.kids[j].kids)
    ensures w.id !in Nodes(w.kids[j]) && Nodes(w.kids[j]) <= ForestNodes(w.kids)
    ensures forall x | x in ForestNodes(w.kids[j].kids) :: x in Nodes(w.kids[j])
    ensures j > 0 ==> w.kids[0].id in Nodes(w.kids[0]) && Nodes(w.kids[0]) !! Nodes(w.kids[j])
  {
    DistinctKids(w);
    ForestContains(w.kids, j);
    DistinctKids(w.kids[j]);
  }

  /** The subtrees of two different children of a node with distinct handles share no handle. */
  lemma KidsDisjoint(w: Tree, a: int, b: int)
    requires Distinct(w) && 0 <= a < |w.kids| && 0 <= b < |w.kids| && a != b
    ensures Nodes(w.kids[a]) !! Nodes(w.kids[b])
    ensures w.kids[a].id in Nodes(w.kids[a]) && w.kids[b].id in Nodes(w.kids[b])
  {
    DistinctKids(w);
  }

  /**
   * Meld on stored trees: when the winner w and the loser l are stored in
   * disjoint slots, the writes store the tree whose root is w and whose
   * children are l followed by w's old children.
   */
  lemma LinkLinked(w: Tree, l: Tree, ns: seq<Slot>)
    requires Linked(w, ns) && Linked(l, ns)
    requires Distinct(w) && Distinct(l) && Nodes(w) !! Nodes(l)
    ensures ns[w.id].child == -1 || 0 <= ns[w.id].child < |ns|
    ensures Melded(ns, LinkSlots(ns, w.id, l.id), w.id, l.id)
    ensures Linked(Node(w.id, w.elt, [l] + w.kids), LinkSlots(ns, w.id, l.id))
  {
    assert w.id in Nodes(w) && l.id in Nodes(l);
    if |w.kids| > 0 {
      LinkedKid(w, 0, ns);
      KidFacts(w, 0);
    }
    LinkSlotsMelded(ns, w.id, l.id);
    MeldedLinked(w, l, ns, LinkSlots(ns, w.id, l.id));
  }

  lemma MeldedLinked(w: Tree, l: Tree, ns: seq<Slot>, r: seq<Slot>)
    requires Linked(w, ns) && Linked(l, ns)
    requires Distinct(w) && Distinct(l) && Nodes(w) !! Nodes(l)
    requires ns[w.id].child == -1 || 0 <= ns[w.id].child < |ns|
    requires Melded(ns, r, w.id, l.id)
    ensures Linked(Node(w.id, w.elt, [l] + w.kids), r)
  {
    var ks := [l] + w.kids;
    forall i | 0 <= i < |ks| ensures KidLinked(w.id, ks, i, r) && Linked(ks[i], r) {
      if i == 0 {
        MeldedLoser(w, l, ns, r);
        MeldedLoserTree(w, l, ns, r);
      } else {
        MeldedKid(w, l, ns, r, i - 1);
      }
    }
    assert KidsLinked(w.id, ks, r);
  }

  /** The loser is now the leftmost child ... */
  lemma MeldedLoser(w: Tree, l: Tree, ns: seq<Slot>, r: seq<Slot>)
    requires Linked(w, ns) && Linked(l, ns)
    requires Distinct(w) && Nodes(w) !! Nodes(l)
    requires ns[w.id].child == -1 || 0 <= ns[w.id].child < |ns|
    requires Melded(ns, r, w.id, l.id)
    ensures KidLinked(w.id, [l] + w.kids, 0, r)
  {
    assert w.id in Nodes(w) && l.id in Nodes(l);
    if |w.kids| > 0 {
      KidFacts(w, 0);
      assert ([l] + w.kids)[1] == w.kids[0];
    }
    var lm := ns[w.id].child;
    assert lm == FirstId(w.kids);
    assert r[l.id].previous == w.id && r[l.id].sibling == lm;
  }

  /** ... and it is still stored. */
  lemma MeldedLoserTree(w: Tree, l: Tree, ns: seq<Slot>, r: seq<Slot>)
    requires Linked(w, ns) && Linked(l, ns)
    requires Distinct(w) && Distinct(l) && Nodes(w) !! Nodes(l)
    requires ns[w.id].child == -1 || 0 <= ns[w.id].child < |ns|
    requires Melded(ns, r, w.id, l.id)
    ensures Linked(l, r)
  {
    assert w.id in Nodes(w) && l.id in Nodes(l);
    if |w.kids| > 0 {
      KidFacts(w, 0);
    }
    NoDupSplit(multiset{l.id}, ForestNodes(l.kids));
    var lm := ns[w.id].child;
    assert lm == -1 || lm in Nodes(w);
    assert r[l.id].elt == ns[l.id].elt && r[l.id].child == ns[l.id].child;
    forall x | x in ForestNodes(l.kids) && 0 <= x < |ns| ensures r[x] == ns[x] {
      assert x in Nodes(l);
      assert x !in Nodes(w);
      assert x != l.id && x != w.id && x != lm;
    }
    LinkedFrame(l, ns, r);
  }

  /** w's old children are stored, now shifted one place right. */
  lemma MeldedKid(w: Tree, l: Tree, ns: seq<Slot>, r: seq<Slot>, j: int)
    requires Linked(w, ns) && Linked(l, ns)
    requires Distinct(w) && Distinct(l) && Nodes(w) !! Nodes(l)
    requires ns[w.id].child == -1 || 0 <= ns[w.id].child < |ns|
    requires Melded(ns, r, w.id, l.id)
    requires 0 <= j < |w.kids|
    ensures KidLinked(w.id, [l] + w.kids, j + 1, r)
    ensures Linked(w.kids[j], r)
  {
    MeldedKidLinks(w, l, ns, r, j);
    MeldedKidFrame(w, l, ns, r, j);
  }

  lemma MeldedKidLinks(w: Tree, l: Tree, ns: seq<Slot>, r: seq<Slot>, j: int)
    requires Linked(w, ns) && Distinct(w) && Distinct(l) && Nodes(w) !! Nodes(l) && 0 <= l.id < |ns|
    requires ns[w.id].child == -1 || 0 <= ns[w.id].child < |ns|
    requires Melded(ns, r, w.id, l.id)
    requires 0 <= j < |w.kids|
    ensures KidLinked(w.id, [l] + w.kids, j + 1, r)
  {
    var ks := [l] + w.kids;
    forall a | 0 <= a < |w.kids| ensures ks[a + 1] == w.kids[a] {
    }
    var x := w.kids[j].id;
    LinkedKid(w, j, ns);
    KidFacts(w, 0);
    KidFacts(w, j);
    assert x in Nodes(w) && x !in Nodes(l);
    MeldedSlot(ns, r, w.id, l.id, x, ks[j].id, if j + 2 < |ks| then ks[j + 2].id else -1);
  }

  /**
   * The links of a slot x other than w and l after meld's writes: w's old
   * leftmost child takes l as its `previous` node, any other slot keeps
   * its links.
   */
  lemma MeldedSlot(ns: seq<Slot>, r: seq<Slot>, w: int, l: int, x: int, pv: int, sb: int)
    requires 0 <= w < |ns| && 0 <= l < |ns|
    requires ns[w].child == -1 || 0 <= ns[w].child < |ns|
    requires Melded(ns, r, w, l) && 0 <= x < |ns| && x != w && x != l
    requires x == ns[w].child ==> pv == l && ns[x].sibling == sb
    requires x != ns[w].child ==> ns[x].previous == pv && ns[x].sibling == sb
    ensures r[x].previous == pv && r[x].sibling == sb
  {
  }

  lemma MeldedKidFrame(w: Tree, l: Tree, ns: seq<Slot>, r: seq<Slot>, j: int)
    requires Linked(w, ns) && Distinct(w) && Nodes(w) !! Nodes(l) && l.id in Nodes(l) && 0 <= l.id < |ns|
    requires ns[w.id].child == -1 || 0 <= ns[w.id].child < |ns|
    requires Melded(ns, r, w.id, l.id)
    requires 0 <= j < |w.kids|
    ensures Linked(w.kids[j], r)
  {
    var k := w.kids[j];
    LinkedKid(w, j, ns);
    KidFacts(w, 0);
    KidFacts(w, j);
    var lm := w.kids[0].id;
    forall x | x in ForestNodes(k.kids) && 0 <= x < |ns| ensures r[x] == ns[x] {
      assert x in Nodes(k);
      assert x in Nodes(w);
      assert x !in Nodes(l);
      assert x != l.id && x != w.id && x != lm;
    }
    LinkedFrame(k, ns, r);
  }
}
