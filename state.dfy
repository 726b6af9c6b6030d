/**
 * The invariant of the arena-based heap and the proof steps of its
 * operations, stated on values: the class PairingHeap.PairingPQ keeps
 * Inv(root, shape, nodes, junk, count), and each of its methods fits
 * together the lemmas here.
 */
module HeapState {
  import opened Trees
  import opened Pairing
  import opened Arena
  import opened Unlink
  import opened Binary

  /**
   * What the root's own `sibling` may point at. The source never clears it
   * when a node becomes the root (pop, PairingPQ.h:217-221 and 245), so it
   * either is null, points back into the heap below the root, or (after a
   * copy, which follows it) points into a region of slots that nothing else
   * reaches and that no operation writes.
   */
  ghost predicate StaleOk(t: Tree, ns: seq<Slot>, junk: BTree)
    requires 0 <= t.id < |ns|
  {
    var s := ns[t.id].sibling;
    || s == -1
    || s in ForestNodes(t.kids)
    || (BinLinked(junk, ns) && BId(junk) == s && BIds(junk) !! Nodes(t))
  }

  /** Handle h is the null link exactly when o is empty, and otherwise is the stored root of o. */
  ghost predicate Stored(h: int, o: Option<Tree>, ns: seq<Slot>)
  {
    && (h == -1 <==> o.None?)
    && (o.Some? ==> o.value.id == h && Linked(o.value, ns) && Distinct(o.value))
  }

  /**
   * The root's stale sibling stays acceptable when the root keeps its slot
   * and its sibling link, the tree only gains fresh slots, and no slot
   * outside the tree changes.
   */
  lemma StaleKeep(t: Tree, ns: seq<Slot>, junk: BTree, t': Tree, ns': seq<Slot>)
    requires 0 <= t.id < |ns| && StaleOk(t, ns, junk)
    requires t'.id == t.id && |ns| <= |ns'| && ns'[t.id].sibling == ns[t.id].sibling
    requires Nodes(t) <= Nodes(t')
    requires forall x | x in Nodes(t') && x !in Nodes(t) :: x >= |ns|
    requires forall x | 0 <= x < |ns| && x !in Nodes(t) :: ns'[x] == ns[x]
    ensures StaleOk(t', ns', junk)
  {
    var s := ns[t.id].sibling;
    if s != -1 && s !in ForestNodes(t.kids) {
      JunkKeep(t, ns, junk, t', ns');
    } else if s != -1 {
      assert Nodes(t)[s] == multiset{t.id}[s] + ForestNodes(t.kids)[s];
      assert Nodes(t')[s] == multiset{t.id}[s] + ForestNodes(t'.kids)[s];
    }
  }

  lemma JunkKeep(t: Tree, ns: seq<Slot>, junk: BTree, t': Tree, ns': seq<Slot>)
    requires BinLinked(junk, ns) && BIds(junk) !! Nodes(t) && |ns| <= |ns'|
    requires forall x | x in Nodes(t') && x !in Nodes(t) :: x >= |ns|
    requires forall x | 0 <= x < |ns| && x !in Nodes(t) :: ns'[x] == ns[x]
    ensures BinLinked(junk, ns') && BIds(junk) !! Nodes(t')
  {
    BinIdsRange(junk, ns);
    forall x | x in BIds(junk) && 0 <= x < |ns| ensures ns'[x] == ns[x] {
      assert x !in Nodes(t);
    }
    BinFrame(junk, ns, ns');
    forall x | x in BIds(junk) ensures x !in Nodes(t') {
      assert x !in Nodes(t);
    }
    Apart(BIds(junk), Nodes(t'));
  }

  lemma Apart(a: multiset<int>, b: multiset<int>)
    requires forall x | x in a :: x !in b
    ensures a !! b
  {
    forall x ensures a[x] == 0 || b[x] == 0 {
      if a[x] > 0 {
        assert x in a;
      }
    }
  }

  /**
   * meld's writes with w winning over l store the linked tree, touch only
   * the slots of the two trees, and leave every element and w's sibling
   * link alone.
   */
  lemma LinkStored(w: Tree, l: Tree, ns: seq<Slot>)
    requires Linked(w, ns) && Distinct(w) && Linked(l, ns) && Distinct(l) && Nodes(w) !! Nodes(l)
    ensures 0 <= w.id < |ns| && 0 <= l.id < |ns|
    ensures ns[w.id].child == -1 || 0 <= ns[w.id].child < |ns|
    ensures var r := LinkSlots(ns, w.id, l.id);
      && Stored(w.id, Some(Node(w.id, w.elt, [l] + w.kids)), r)
      && (forall x | 0 <= x < |ns| && x !in Nodes(w) && x !in Nodes(l) :: r[x] == ns[x])
      && (forall x | 0 <= x < |ns| :: r[x].elt == ns[x].elt)
      && r[w.id].sibling == ns[w.id].sibling
  {
    LinkLinked(w, l, ns);
    LinkDistinct(w, l);
    assert w.id in Nodes(w) && l.id in Nodes(l);
    if |w.kids| > 0 {
      KidRootIn(w.kids, 0);
      KidInNodes(w, w.kids[0].id);
    }
    MeldedFrame(ns, LinkSlots(ns, w.id, l.id), w.id, l.id, Nodes(w), Nodes(l));
  }

  /** Linking two trees with disjoint distinct handles keeps the handles distinct. */
  lemma LinkDistinct(w: Tree, l: Tree)
    requires Distinct(w) && Distinct(l) && Nodes(w) !! Nodes(l)
    ensures Nodes(Node(w.id, w.elt, [l] + w.kids)) == Nodes(w) + Nodes(l)
    ensures Distinct(Node(w.id, w.elt, [l] + w.kids))
  {
    assert ([l] + w.kids)[1..] == w.kids;
    NoDupUnion(Nodes(w), Nodes(l));
  }

  /**
   * meld's writes on two non-null stored trees a and b, with the winner
   * chosen as the source chooses it (b on a tie), store their meld, touch
   * only their slots, and leave every element and the winner's sibling
   * link alone.
   */
  lemma MeldSlots(a: int, b: int, ta: Option<Tree>, tb: Option<Tree>, ns: seq<Slot>)
    requires Stored(a, ta, ns) && Stored(b, tb, ns) && OptNodes(ta) !! OptNodes(tb)
    requires a != -1 && b != -1
    ensures 0 <= a < |ns| && 0 <= b < |ns|
    ensures var w := if ns[b].elt < ns[a].elt then a else b;
      var l := if ns[b].elt < ns[a].elt then b else a;
      && (ns[w].child == -1 || 0 <= ns[w].child < |ns|)
      && Stored(w, Pairing.Meld(ta, tb), LinkSlots(ns, w, l))
      && Unchanged(ns, LinkSlots(ns, w, l), OptNodes(ta) + OptNodes(tb))
      && EltsKept(ns, LinkSlots(ns, w, l))
      && SiblingKept(ns, LinkSlots(ns, w, l), w)
  {
    var x, y := ta.value, tb.value;
    if y.elt < x.elt {
      LinkStored(x, y, ns);
    } else {
      LinkStored(y, x, ns);
    }
  }

  /** The size counts the handles and the elements. */
  lemma OptSizeCount(o: Option<Tree>)
    ensures |OptElements(o)| == OptSize(o) && |OptNodes(o)| == OptSize(o)
  {
    OptSizeNodes(o);
    if o.Some? { SizeCount(o.value); }
  }

  lemma OptEmpty(o: Option<Tree>)
    ensures o.None? <==> OptElements(o) == multiset{}
    ensures o.None? <==> OptSize(o) == 0
  {
    if o.Some? {
      assert o.value.elt in OptElements(o);
      assert o.value.id in OptNodes(o);
    }
  }

  lemma RootIsTop(t: Tree)
    ensures t.elt in Elements(t)
    ensures HeapOrdered(t) ==> forall x | x in Elements(t) :: !(t.elt < x)
  {
    if HeapOrdered(t) { TopIsMax(t); }
  }

  /**
   * The state of a heap: the links from root store the tree shape with
   * distinct handles, the root's stale sibling is acceptable, and count is
   * the number of nodes.
   */
  ghost predicate Inv(root: int, shape: Option<Tree>, ns: seq<Slot>, junk: BTree, count: nat)
  {
    && Stored(root, shape, ns)
    && (shape.Some? ==> StaleOk(shape.value, ns, junk))
    && count == OptSize(shape)
  }

  /** Only the slots in m may differ, and the arena keeps its length. */
  ghost predicate Unchanged(ns: seq<Slot>, ns': seq<Slot>, m: multiset<int>)
  {
    && |ns'| == |ns|
    && forall x | 0 <= x < |ns| && x !in m :: ns'[x] == ns[x]
  }

  /** Every slot of ns is still there and holds the same element. */
  ghost predicate EltsKept(ns: seq<Slot>, ns': seq<Slot>)
  {
    && |ns| <= |ns'|
    && forall x | 0 <= x < |ns| :: ns'[x].elt == ns[x].elt
  }

  /** Node r, unless null, keeps its sibling link. */
  ghost predicate SiblingKept(ns: seq<Slot>, ns': seq<Slot>, r: int)
  {
    r == -1 || (0 <= r < |ns| && 0 <= r < |ns'| && ns'[r].sibling == ns[r].sibling)
  }

  // ---------------------------------------------------------------------
  // addNode (PairingPQ.h:349-361)

  /** Before addNode's meld: the fresh node and the old tree are stored, with disjoint handles. */
  lemma AddPre(root: int, o: Option<Tree>, ns: seq<Slot>, junk: BTree, c: nat, v: int)
    requires Inv(root, o, ns, junk, c)
    ensures Stored(|ns|, Some(Node(|ns|, v, [])), ns + [Fresh(v)])
    ensures Stored(root, o, ns + [Fresh(v)])
    ensures OptNodes(Some(Node(|ns|, v, []))) !! OptNodes(o)
  {
    var s := Node(|ns|, v, []);
    var n1 := ns + [Fresh(v)];
    assert ForestNodes(s.kids) == multiset{};
    assert Linked(s, n1);
    if o.Some? {
      LinkedIds(o.value, ns);
      LinkedFrame(o.value, ns, n1);
    }
  }

  /**
   * After addNode has made the fresh node holding v the root of an empty
   * heap, or melded it into the tree: the heap state holds again with one
   * more node, the handles and elements are the old ones plus the new
   * ones, heap order is kept, and no element has moved.
   */
  lemma AddPost(root: int, o: Option<Tree>, ns: seq<Slot>, junk: BTree, c: nat, v: int,
                n1: seq<Slot>, ns': seq<Slot>, r: int)
    requires Inv(root, o, ns, junk, c) && n1 == ns + [Fresh(v)]
    requires Stored(r, Pairing.Meld(Some(Node(|ns|, v, [])), o), ns')
    requires Unchanged(n1, ns', OptNodes(Some(Node(|ns|, v, []))) + OptNodes(o))
    requires EltsKept(n1, ns')
    requires SiblingKept(n1, ns', r)
    ensures var t' := Pairing.Meld(Some(Node(|ns|, v, [])), o);
      && Inv(r, t', ns', junk, c + 1)
      && OptNodes(t') == OptNodes(o) + multiset{|ns|}
      && OptElements(t') == OptElements(o) + multiset{v}
      && (OptOrdered(o) ==> OptOrdered(t'))
    ensures EltsKept(ns, ns') && ns'[|ns|].elt == v
  {
    AddTree(o, |ns|, v);
    OptSizeNodes(o);
    OptSizeNodes(Pairing.Meld(Some(Node(|ns|, v, [])), o));
    AddStale(root, o, ns, junk, c, v, n1, ns', r);
    AppendKept(ns, Fresh(v), n1, ns');
  }

  /** Melding a single node holding v into o adds exactly its handle and its element. */
  lemma AddTree(o: Option<Tree>, h: int, v: int)
    ensures var t' := Pairing.Meld(Some(Node(h, v, [])), o);
      && t'.Some?
      && OptNodes(t') == OptNodes(o) + multiset{h}
      && OptElements(t') == OptElements(o) + multiset{v}
      && (OptOrdered(o) ==> OptOrdered(t'))
  {
    var s := Node(h, v, []);
    assert ForestNodes(s.kids) == multiset{} && ForestElements(s.kids) == multiset{};
    assert Nodes(s) == multiset{s.id} && Elements(s) == multiset{v};
    assert HeapOrdered(s);
    MeldProps(Some(s), o);
  }

  /** After addNode the root's stale sibling is still acceptable. */
  lemma AddStale(root: int, o: Option<Tree>, ns: seq<Slot>, junk: BTree, c: nat, v: int,
                 n1: seq<Slot>, ns': seq<Slot>, r: int)
    requires Inv(root, o, ns, junk, c) && n1 == ns + [Fresh(v)]
    requires Stored(r, Pairing.Meld(Some(Node(|ns|, v, [])), o), ns')
    requires Unchanged(n1, ns', OptNodes(Some(Node(|ns|, v, []))) + OptNodes(o))
    requires SiblingKept(n1, ns', r)
    ensures StaleOk(Pairing.Meld(Some(Node(|ns|, v, [])), o).value, ns', junk)
  {
    var s := Node(|ns|, v, []);
    assert n1[|ns|] == Fresh(v);
    if o.Some? && r == o.value.id {
      var t := o.value;
      LinkShape(s, t);
      LinkNodes(s, t);
      assert ForestNodes(s.kids) == multiset{};
      forall x | 0 <= x < |ns| && x !in Nodes(t) ensures ns'[x] == ns[x] {
        assert n1[x] == ns[x];
      }
      assert ns[t.id] == n1[t.id];
      StaleKeep(t, ns, junk, Link(s, t), ns');
    }
  }

  /** The slots of ns keep their elements through an append and a step that keeps all elements. */
  lemma AppendKept(ns: seq<Slot>, f: Slot, n1: seq<Slot>, ns': seq<Slot>)
    requires n1 == ns + [f] && EltsKept(n1, ns')
    ensures EltsKept(ns, ns') && ns'[|ns|].elt == f.elt
  {
    assert n1[|ns|] == f;
    forall x | 0 <= x < |ns| ensures ns'[x].elt == ns[x].elt {
      assert n1[x] == ns[x];
    }
  }
  // ---------------------------------------------------------------------
  // pop (PairingPQ.h:199-250)

  /**
   * The sibling link of node x is null or points at another node among m:
   * what the source leaves in the sibling of a tree in pop's queue, and
   * so in the new root's.
   */
  ghost predicate SibIn(ns: seq<Slot>, x: int, m: multiset<int>)
  {
    && 0 <= x < |ns|
    && (ns[x].sibling == -1 || (ns[x].sibling in m && ns[x].sibling != x))
  }

  /**
   * pop's FIFO queue of node handles q stores the trees gq: the i-th
   * handle is the root of the i-th tree, the trees are stored with their
   * roots' siblings pointing among m, and they have distinct handles and
   * are pairwise disjoint.
   */
  ghost predicate QueueOk(q: seq<int>, gq: seq<Tree>, ns: seq<Slot>, m: multiset<int>)
  {
    QueueIds(q, gq) && QueueLinked(gq, ns, m) && QueueDistinct(gq)
  }

  ghost predicate QueueIds(q: seq<int>, gq: seq<Tree>)
  {
    && |q| == |gq|
    && (forall j | 0 <= j < |gq| :: q[j] == gq[j].id)
  }

  ghost predicate QueueLinked(gq: seq<Tree>, ns: seq<Slot>, m: multiset<int>)
  {
    forall j | 0 <= j < |gq| :: Linked(gq[j], ns) && SibIn(ns, gq[j].id, m)
  }

  ghost predicate QueueDistinct(gq: seq<Tree>)
  {
    && (forall j | 0 <= j < |gq| :: Distinct(gq[j]))
    && (forall i, j | 0 <= i < j < |gq| :: Nodes(gq[i]) !! Nodes(gq[j]))
  }

  lemma UnchangedTrans(ns0: seq<Slot>, ns: seq<Slot>, ns': seq<Slot>, m: multiset<int>, sub: multiset<int>)
    requires Unchanged(ns0, ns, m) && Unchanged(ns, ns', sub) && sub <= m
    ensures Unchanged(ns0, ns', m)
  {
  }

  lemma EltsTrans(ns0: seq<Slot>, ns: seq<Slot>, ns': seq<Slot>)
    requires EltsKept(ns0, ns) && EltsKept(ns, ns')
    ensures EltsKept(ns0, ns')
  {
  }

  /** The root's children, in order, form a queue as pop builds it. */
  lemma KidsQueue(root: int, o: Option<Tree>, ns: seq<Slot>, junk: BTree, c: nat)
    requires Inv(root, o, ns, junk, c) && root != -1
    ensures 0 <= root < |ns| && ns[root].child == FirstId(o.value.kids)
    ensures QueueOk(Roots(o.value.kids), o.value.kids, ns, ForestNodes(o.value.kids))
    ensures root !in ForestNodes(o.value.kids)
    ensures |o.value.kids| > 0 ==> 0 <= o.value.kids[0].id < |ns|
    ensures KidsLinked(root, o.value.kids, ns)
    ensures c >= 1
  {
    var t := o.value;
    var ks := t.kids;
    assert t.id in Nodes(t);
    DistinctKids(t);
    forall j | 0 <= j < |ks| ensures Linked(ks[j], ns) && SibIn(ns, ks[j].id, ForestNodes(ks)) {
      KidSib(t, j, ns);
    }
  }

  /** A child's sibling link points at the next child, or is null for the last one. */
  lemma KidSib(t: Tree, j: int, ns: seq<Slot>)
    requires Linked(t, ns) && Distinct(t) && 0 <= j < |t.kids|
    ensures Linked(t.kids[j], ns) && SibIn(ns, t.kids[j].id, ForestNodes(t.kids))
  {
    LinkedKid(t, j, ns);
    if j + 1 < |t.kids| {
      KidRootIn(t.kids, j + 1);
      KidsDisjoint(t, j, j + 1);
    }
  }

  /**
   * The only-child case of pop: a child whose sibling is null is the only
   * one, and it is stored on its own with a null sibling.
   */
  lemma OnlyChild(root: int, o: Option<Tree>, ns: seq<Slot>, junk: BTree, c: nat)
    requires Inv(root, o, ns, junk, c) && root != -1
    requires |o.value.kids| > 0 && 0 <= o.value.kids[0].id < |ns| && ns[o.value.kids[0].id].sibling == -1
    ensures |o.value.kids| == 1
    ensures Stored(o.value.kids[0].id, PopTree(o.value), ns)
    ensures SibIn(ns, o.value.kids[0].id, ForestNodes(o.value.kids))
  {
    var t := o.value;
    DistinctKids(t);
    LinkedKid(t, 0, ns);
    if |t.kids| > 1 {
      LinkedKid(t, 1, ns);
    }
  }

  /**
   * One round of pop's pairing loop: the two front trees are stored with
   * disjoint handles, and lie among the handles of the queue.
   */
  lemma PairPre(q: seq<int>, gq: seq<Tree>, ns: seq<Slot>, m: multiset<int>)
    requires QueueOk(q, gq, ns, m) && |q| >= 2
    ensures Stored(q[0], Some(gq[0]), ns) && Stored(q[1], Some(gq[1]), ns)
    ensures OptNodes(Some(gq[0])) !! OptNodes(Some(gq[1]))
    ensures OptNodes(Some(gq[0])) + OptNodes(Some(gq[1])) <= ForestNodes(gq)
  {
    ForestPair(gq, 0, 1);
  }

  /**
   * After the meld of one round: the queue with the two front trees
   * replaced by their meld at the back stores the next trees of the
   * pairing, over the same handles and with the same final result.
   */
  lemma PairPost(q: seq<int>, gq: seq<Tree>, ns: seq<Slot>, m: multiset<int>, ns': seq<Slot>, r: int)
    requires QueueOk(q, gq, ns, m) && |q| >= 2
    requires Stored(r, Pairing.Meld(Some(gq[0]), Some(gq[1])), ns')
    requires Unchanged(ns, ns', OptNodes(Some(gq[0])) + OptNodes(Some(gq[1])))
    requires SiblingKept(ns, ns', r)
    ensures var gq' := gq[2..] + [Link(gq[0], gq[1])];
      && QueueOk(q[1..][1..] + [r], gq', ns', m)
      && ForestNodes(gq') == ForestNodes(gq)
      && MultiPass(gq') == MultiPass(gq)
  {
    var l := Link(gq[0], gq[1]);
    PairNodes(gq);
    LinkShape(gq[0], gq[1]);
    LinkNodes(gq[0], gq[1]);
    assert SibIn(ns, gq[0].id, m) && SibIn(ns, gq[1].id, m);
    PairIds(q, gq, r);
    PairFrontApart(gq);
    PairLinked(gq, ns, m, ns');
    PairDisjoint(gq);
  }

  /** The handles of the queue after one round. */
  lemma PairIds(q: seq<int>, gq: seq<Tree>, r: int)
    requires QueueIds(q, gq) && |q| >= 2 && r == Link(gq[0], gq[1]).id
    ensures QueueIds(q[1..][1..] + [r], gq[2..] + [Link(gq[0], gq[1])])
  {
    var l := Link(gq[0], gq[1]);
    var gq' := gq[2..] + [l];
    var q' := q[1..][1..] + [r];
    forall j | 0 <= j < |gq'| ensures q'[j] == gq'[j].id {
      if j < |gq| - 2 {
        assert gq'[j] == gq[j + 2] && q'[j] == q[j + 2];
      } else {
        assert gq'[j] == l && q'[j] == r;
      }
    }
  }

  /** The two front trees share no handle with a tree behind them. */
  lemma PairFrontApart(gq: seq<Tree>)
    requires |gq| >= 2 && QueueDistinct(gq)
    ensures forall j | 2 <= j < |gq| :: Nodes(gq[0]) !! Nodes(gq[j]) && Nodes(gq[1]) !! Nodes(gq[j])
  {
  }

  /** The trees behind the two front ones stay stored, and the meld joins them at the back. */
  lemma PairLinked(gq: seq<Tree>, ns: seq<Slot>, m: multiset<int>, ns': seq<Slot>)
    requires |gq| >= 2 && QueueLinked(gq, ns, m)
    requires forall j | 2 <= j < |gq| :: Nodes(gq[0]) !! Nodes(gq[j]) && Nodes(gq[1]) !! Nodes(gq[j])
    requires Unchanged(ns, ns', OptNodes(Some(gq[0])) + OptNodes(Some(gq[1])))
    requires var l := Link(gq[0], gq[1]); Linked(l, ns') && SibIn(ns', l.id, m)
    ensures QueueLinked(gq[2..] + [Link(gq[0], gq[1])], ns', m)
  {
    var l := Link(gq[0], gq[1]);
    var gq' := gq[2..] + [l];
    forall j | 0 <= j < |gq'| ensures Linked(gq'[j], ns') && SibIn(ns', gq'[j].id, m) {
      if j < |gq| - 2 {
        assert gq'[j] == gq[j + 2];
        PairRest(gq, ns, ns', m, j + 2);
      } else {
        assert gq'[j] == l;
      }
    }
  }

  /** The trees of the queue stay distinct and pairwise disjoint after one round. */
  lemma PairDisjoint(gq: seq<Tree>)
    requires |gq| >= 2 && QueueDistinct(gq)
    requires Distinct(Link(gq[0], gq[1]))
    requires Nodes(Link(gq[0], gq[1])) == Nodes(gq[0]) + Nodes(gq[1])
    ensures QueueDistinct(gq[2..] + [Link(gq[0], gq[1])])
  {
    var gq' := gq[2..] + [Link(gq[0], gq[1])];
    forall j | 0 <= j < |gq'| ensures Distinct(gq'[j]) {
      if j < |gq| - 2 { assert gq'[j] == gq[j + 2]; }
    }
    forall i, j | 0 <= i < j < |gq'| ensures Nodes(gq'[i]) !! Nodes(gq'[j]) {
      assert gq'[i] == gq[i + 2];
      if j < |gq| - 2 {
        assert gq'[j] == gq[j + 2];
      } else {
        assert Nodes(gq[0]) !! Nodes(gq[i + 2]) && Nodes(gq[1]) !! Nodes(gq[i + 2]);
      }
    }
  }

  /** A tree behind the two front ones is not touched by their meld. */
  lemma PairRest(gq: seq<Tree>, ns: seq<Slot>, ns': seq<Slot>, m: multiset<int>, j: int)
    requires 2 <= j < |gq|
    requires Linked(gq[j], ns) && SibIn(ns, gq[j].id, m)
    requires Nodes(gq[0]) !! Nodes(gq[j]) && Nodes(gq[1]) !! Nodes(gq[j])
    requires Unchanged(ns, ns', OptNodes(Some(gq[0])) + OptNodes(Some(gq[1])))
    ensures Linked(gq[j], ns') && SibIn(ns', gq[j].id, m)
  {
    var k := gq[j];
    LinkedIds(k, ns);
    assert k.id in Nodes(k);
    assert forall x | x in Nodes(k) :: x !in Nodes(gq[0]) + Nodes(gq[1]);
    LinkedFrame(k, ns, ns');
  }

  /** A non-empty heap has a stored root and at least one node. */
  lemma PopPre(root: int, o: Option<Tree>, ns: seq<Slot>, junk: BTree, c: nat)
    requires Inv(root, o, ns, junk, c) && root != -1
    ensures 0 <= root < |ns| && c >= 1
    ensures ns[root].child == -1 <==> PopTree(o.value).None?
  {
    if |o.value.kids| > 0 {
      LinkedKid(o.value, 0, ns);
    }
  }

  /** When one tree is left in the queue, it is the result of the pairing. */
  lemma PairEnd(q: seq<int>, gq: seq<Tree>, ns: seq<Slot>, m: multiset<int>)
    requires QueueOk(q, gq, ns, m) && |q| == 1
    ensures Stored(q[0], Some(MultiPass(gq)), ns) && SibIn(ns, q[0], m)
  {
  }

  /**
   * After pop: the heap state holds again for the new root, and the
   * popped root's handle and element are gone; heap order is kept and
   * the new top is no more extreme than the element popped.
   */
  lemma PopDone(root: int, o: Option<Tree>, ns: seq<Slot>, junk: BTree, c: nat, r: int, ns': seq<Slot>)
    requires Inv(root, o, ns, junk, c) && root != -1
    requires Stored(r, PopTree(o.value), ns')
    requires r != -1 ==> SibIn(ns', r, ForestNodes(o.value.kids))
    ensures c >= 1 && (r == -1 ==> c == 1)
    ensures Inv(r, PopTree(o.value), ns', junk, c - 1)
    ensures OptNodes(PopTree(o.value)) == OptNodes(o) - multiset{root}
    ensures 0 <= root < |ns| && OptElements(PopTree(o.value)) == OptElements(o) - multiset{ns[root].elt}
    ensures OptOrdered(o) ==> OptOrdered(PopTree(o.value))
    ensures OptOrdered(o) && r != -1 ==> 0 <= r < |ns'| && !(ns[root].elt < ns'[r].elt)
  {
    var t := o.value;
    PopProps(t);
    OptSizeNodes(o);
    OptSizeNodes(PopTree(t));
    assert t.id in Nodes(t);
    if r != -1 {
      var p := PopTree(t).value;
      assert Nodes(p) == ForestNodes(t.kids) by { MultiPassProps(t.kids); }
      assert Nodes(p) == multiset{p.id} + ForestNodes(p.kids);
    }
  }
}
