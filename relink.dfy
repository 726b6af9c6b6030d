/**
 * The proof steps of updateElt (PairingPQ.h:316-339) on the arena: after
 * the new element is written and the node h is unlinked with its
 * subtree, the slots store two trees, the remaining heap and h's subtree,
 * and melding them gives Update.Decrease of the old tree.
 */
module Relink {
  import opened Trees
  import opened Pairing
  import opened Update
  import opened Arena
  import opened Unlink
  import opened Binary
  import opened HeapState

  /**
   * The slots just before updateElt's meld: h unlinked from its
   * neighbours, holding the new element v, with null sibling and
   * previous links (PairingPQ.h:318-337).
   */
  ghost function Relinked(ns: seq<Slot>, h: int, v: int): seq<Slot>
    requires UnlinkOk(ns, h)
  {
    UnlinkSlots(ns, h)[h := ns[h].(elt := v, sibling := -1, previous := -1)]
  }

  /**
   * Where the neighbours of the live non-root node h of t sit: both are
   * nodes of t outside h's subtree, and the previous node is the root only
   * when h is the root's leftmost child.
   */
  ghost predicate Neighbours(t: Tree, h: int, ns: seq<Slot>)
  {
    && Find(t.kids, h).Some? && Find(t.kids, h).value.id == h
    && UnlinkOk(ns, h)
    && var s := Find(t.kids, h).value;
    && var p := ns[h].previous;
    && var nx := ns[h].sibling;
    && p in Nodes(t) && p !in Nodes(s)
    && (nx == -1 || (nx in Nodes(t) && nx !in Nodes(s)))
    && (p == t.id ==> ns[p].child == h)
  }

  /** Unlinking a live non-root node of a stored heap is well defined, with the neighbours above. */
  lemma UpdatePre(root: int, o: Option<Tree>, ns: seq<Slot>, junk: BTree, c: nat, h: int)
    requires Inv(root, o, ns, junk, c) && o.Some? && h in ForestNodes(o.value.kids)
    ensures Neighbours(o.value, h, ns) && UnlinkOk(ns, h)
  {
    var t := o.value;
    UnlinkWhere(t, h, ns);
    var s := Find(t.kids, h).value;
    assert h in Nodes(s);
    LinkedIds(t, ns);
    assert ns[h].previous in Nodes(t);
    if ns[h].sibling != -1 {
      KidInNodes(t, ns[h].sibling);
    }
  }

  /**
   * Cutting h out of t splits t's handles between the remaining tree and
   * h's subtree, both with distinct handles; the remaining tree keeps t's
   * root and does not hold h.
   */
  lemma CutApart(t: Tree, h: int)
    requires Distinct(t) && h in ForestNodes(t.kids)
    ensures Find(t.kids, h).Some? && Find(t.kids, h).value.id == h
    ensures var s := Find(t.kids, h).value;
      && Nodes(Cut(t, h)) + Nodes(s) == Nodes(t)
      && Distinct(Cut(t, h)) && Distinct(s) && Nodes(Cut(t, h)) !! Nodes(s)
      && h !in Nodes(Cut(t, h)) && Cut(t, h).id == t.id && t.id != h
  {
    CutSplit(t, h);
    var s := Find(t.kids, h).value;
    NoDupSplit(Nodes(Cut(t, h)), Nodes(s));
    assert h in Nodes(s);
  }

  /** The handles of t are those of the remaining tree and those of h's subtree. */
  lemma CutSplit(t: Tree, h: int)
    requires Distinct(t) && h in ForestNodes(t.kids)
    ensures Find(t.kids, h).Some? && Find(t.kids, h).value.id == h
    ensures Nodes(Cut(t, h)) + Nodes(Find(t.kids, h).value) == Nodes(t)
  {
    NoDupSplit(multiset{t.id}, ForestNodes(t.kids));
    CutNodes(t.kids, h);
    FindSound(t.kids, h);
    assert Nodes(Cut(t, h)) == multiset{t.id} + ForestNodes(CutForest(t.kids, h));
  }

  /** The unlink writes do not depend on the element just written at h. */
  lemma UnlinkElt(ns: seq<Slot>, h: int, v: int)
    requires UnlinkOk(ns, h)
    ensures UnlinkOk(ns[h := ns[h].(elt := v)], h)
    ensures UnlinkSlots(ns[h := ns[h].(elt := v)], h) == UnlinkSlots(ns, h)[h := ns[h].(elt := v)]
  {
  }

  /** Before the meld, h's subtree is stored at h with the new element. */
  lemma SubStored(t: Tree, h: int, ns: seq<Slot>, v: int)
    requires Linked(t, ns) && Distinct(t) && h in ForestNodes(t.kids) && Neighbours(t, h, ns)
    ensures Stored(h, Some(Node(h, v, Find(t.kids, h).value.kids)), Relinked(ns, h, v))
  {
    var s := Find(t.kids, h).value;
    var r := Relinked(ns, h, v);
    forall i | 0 <= i < |t.kids| ensures Linked(t.kids[i], ns) {
      LinkedKid(t, i, ns);
    }
    FindLinked(t.kids, h, ns);
    CutApart(t, h);
    DistinctKids(s);
    forall x | x in ForestNodes(s.kids) && 0 <= x < |ns| ensures r[x] == ns[x] {
      assert x in Nodes(s);
    }
    LinkedRelabel(s, v, ns, r);
    assert Nodes(Node(h, v, s.kids)) == Nodes(s);
  }

  /** Before the meld, the rest of the heap is stored at the root. */
  lemma CutStored(t: Tree, h: int, ns: seq<Slot>, v: int)
    requires Linked(t, ns) && Distinct(t) && h in ForestNodes(t.kids) && Neighbours(t, h, ns)
    ensures Stored(t.id, Some(Cut(t, h)), Relinked(ns, h, v))
  {
    var u := UnlinkSlots(ns, h);
    UnlinkSlotsUnlinked(ns, h);
    CutLinked(t, h, ns, u);
    CutApart(t, h);
    var c := Cut(t, h);
    forall x | x in ForestNodes(c.kids) && 0 <= x < |u| ensures Relinked(ns, h, v)[x] == u[x] {
      assert x in Nodes(c);
    }
    LinkedFrame(c, u, Relinked(ns, h, v));
  }

  /**
   * The writes before the meld touch only slots of t, change no element
   * but h's, and leave the root's sibling link alone.
   */
  lemma RelinkedFrame(t: Tree, h: int, ns: seq<Slot>, v: int)
    requires Distinct(t) && h in ForestNodes(t.kids) && Neighbours(t, h, ns)
    ensures var r := Relinked(ns, h, v);
      && |r| == |ns| && r[h].elt == v
      && (forall x | 0 <= x < |ns| && x !in Nodes(t) :: r[x] == ns[x])
      && (forall x | 0 <= x < |ns| && x != h :: r[x].elt == ns[x].elt)
      && (0 <= t.id < |ns| ==> r[t.id].sibling == ns[t.id].sibling)
  {
    UnlinkSlotsUnlinked(ns, h);
    CutApart(t, h);
    assert h in Nodes(Find(t.kids, h).value);
  }

  /**
   * Before the meld: the root stores the rest of the heap, h stores its
   * subtree with the new element, and the two share no handle.
   */
  lemma UpdateMid(root: int, o: Option<Tree>, ns: seq<Slot>, junk: BTree, c: nat, h: int, v: int)
    requires Inv(root, o, ns, junk, c) && o.Some? && h in ForestNodes(o.value.kids)
    requires Neighbours(o.value, h, ns)
    ensures var t := o.value; var s := Find(t.kids, h).value; var r := Relinked(ns, h, v);
      && Stored(root, Some(Cut(t, h)), r)
      && Stored(h, Some(Node(h, v, s.kids)), r)
      && OptNodes(Some(Cut(t, h))) !! OptNodes(Some(Node(h, v, s.kids)))
  {
    var t := o.value;
    SubStored(t, h, ns, v);
    CutStored(t, h, ns, v);
    CutApart(t, h);
    var s := Find(t.kids, h).value;
    assert Nodes(Node(h, v, s.kids)) == Nodes(s);
  }

  /**
   * After the meld: the root stores Decrease of the old tree, with the
   * same handles and size, and its stale sibling is still acceptable;
   * every slot outside the heap is unchanged and only h's element differs.
   */
  lemma UpdatePost(root: int, o: Option<Tree>, ns: seq<Slot>, junk: BTree, c: nat, h: int, v: int,
                   r: int, ns': seq<Slot>)
    requires Inv(root, o, ns, junk, c) && o.Some? && h in ForestNodes(o.value.kids)
    requires Neighbours(o.value, h, ns)
    requires var t := o.value; var s := Find(t.kids, h).value;
      && Stored(r, Meld(Some(Cut(t, h)), Some(Node(h, v, s.kids))), ns')
      && Unchanged(Relinked(ns, h, v), ns', OptNodes(Some(Cut(t, h))) + OptNodes(Some(Node(h, v, s.kids))))
      && EltsKept(Relinked(ns, h, v), ns') && SiblingKept(Relinked(ns, h, v), ns', r)
    ensures Inv(r, Some(Decrease(o.value, h, v)), ns', junk, c)
    ensures Unchanged(ns, ns', OptNodes(o))
    ensures 0 <= h < |ns'| && ns'[h].elt == v
    ensures forall x | 0 <= x < |ns| && x != h :: ns'[x].elt == ns[x].elt
  {
    var t := o.value;
    var s := Find(t.kids, h).value;
    var d := Decrease(t, h, v);
    CutApart(t, h);
    RelinkedFrame(t, h, ns, v);
    assert Nodes(Node(h, v, s.kids)) == Nodes(s);
    DecreaseNodes(t, h, v);
    UpdateStale(root, o, ns, junk, c, h, v, r, ns');
    SizeNodes(t);
    SizeNodes(d);
  }

  /** The stale sibling of the new root is acceptable: null for h, the old one for the old root. */
  lemma UpdateStale(root: int, o: Option<Tree>, ns: seq<Slot>, junk: BTree, c: nat, h: int, v: int,
                    r: int, ns': seq<Slot>)
    requires Inv(root, o, ns, junk, c) && o.Some? && h in ForestNodes(o.value.kids)
    requires Neighbours(o.value, h, ns)
    requires var t := o.value; var s := Find(t.kids, h).value;
      && Stored(r, Meld(Some(Cut(t, h)), Some(Node(h, v, s.kids))), ns')
      && Unchanged(Relinked(ns, h, v), ns', Nodes(t))
      && SiblingKept(Relinked(ns, h, v), ns', r)
    requires Nodes(Decrease(o.value, h, v)) == Nodes(o.value)
    requires forall x | 0 <= x < |ns| && x !in Nodes(o.value) :: Relinked(ns, h, v)[x] == ns[x]
    requires 0 <= o.value.id < |ns| ==> Relinked(ns, h, v)[o.value.id].sibling == ns[o.value.id].sibling
    ensures 0 <= r < |ns'| && StaleOk(Decrease(o.value, h, v), ns', junk)
  {
    var t := o.value;
    var d := Decrease(t, h, v);
    CutApart(t, h);
    if r != t.id {
      assert r == h;
    } else {
      StaleKeep(t, ns, junk, d, ns');
    }
  }

  /** The element h held before updateElt is the root element of h's subtree. */
  lemma UpdateOldElt(t: Tree, h: int, ns: seq<Slot>)
    requires Linked(t, ns) && Find(t.kids, h).Some?
    ensures 0 <= h < |ns| ==> Find(t.kids, h).value.id == h ==> ns[h].elt == Find(t.kids, h).value.elt
  {
    forall i | 0 <= i < |t.kids| ensures Linked(t.kids[i], ns) {
      LinkedKid(t, i, ns);
    }
    FindLinked(t.kids, h, ns);
  }

  /**
   * What updateElt leaves behind for the stored tree t: the root r stores
   * Decrease of t, the slots outside t are unchanged, and only h's element
   * differs, being v.
   */
  ghost predicate UpdateDone(t: Tree, h: int, v: int, junk: BTree, c: nat, ns: seq<Slot>, r: int, ns': seq<Slot>)
  {
    && Find(t.kids, h).Some?
    && Inv(r, Some(Decrease(t, h, v)), ns', junk, c)
    && Unchanged(ns, ns', Nodes(t))
    && 0 <= h < |ns'| && ns'[h].elt == v
    && (forall x | 0 <= x < |ns| && x != h :: ns'[x].elt == ns[x].elt)
  }

  /**
   * What that means for the heap: same handles, h's old element replaced
   * by v, and heap order kept when v is not less than the old element.
   */
  lemma UpdateFacts(t: Tree, h: int, v: int, junk: BTree, c: nat, ns: seq<Slot>, r: int, ns': seq<Slot>)
    requires Linked(t, ns) && Distinct(t) && h in ForestNodes(t.kids)
    requires UpdateDone(t, h, v, junk, c, ns, r, ns')
    ensures Nodes(Decrease(t, h, v)) == Nodes(t)
    ensures 0 <= h < |ns| && Elements(Decrease(t, h, v)) == Elements(t) - multiset{ns[h].elt} + multiset{v}
    ensures 0 <= h < |ns| && HeapOrdered(t) && !(v < ns[h].elt) ==> HeapOrdered(Decrease(t, h, v))
    ensures forall x | 0 <= x < |ns'| && x != h :: ns'[x].elt == ns[x].elt
  {
    DecreaseProps(t, h, v);
    UpdateOldElt(t, h, ns);
  }
}
