/**
 * The proof steps of to_queue (PairingPQ.h:264-293) and updatePriorities
 * (PairingPQ.h:170-181) on the arena, stated on values like those of
 * HeapState; the class PairingHeap.PairingPQ fits them together.
 */
module Relisting {
  import opened Trees
  import opened Pairing
  import opened Traversal
  import opened Arena
  import opened Binary
  import opened HeapState

  /** Every tree of the list is stored in the slots. */
  ghost predicate AllLinked(gq: seq<Tree>, ns: seq<Slot>)
  {
    forall j | 0 <= j < |gq| :: Linked(gq[j], ns)
  }

  // ---------------------------------------------------------------------
  // to_queue (PairingPQ.h:264-293)

  /** Before the loop: the queue holds the root, whose breadth-first listing is the whole heap's. */
  lemma ListStart(root: int, o: Option<Tree>, ns: seq<Slot>)
    requires Stored(root, o, ns) && root != -1
    ensures AllLinked([o.value], ns) && [root] == Roots([o.value])
    ensures [] + Roots(Bfs([o.value])) == Roots(Listing(o))
  {
    var t := o.value;
    assert Linked([t][0], ns);
    assert Roots([t])[0] == root;
  }

  /**
   * One round of to_queue's loop: the front tree is listed and its
   * children join the back of the queue, which shrinks in size.
   */
  lemma ListStep(gq: seq<Tree>, ns: seq<Slot>)
    requires |gq| > 0 && AllLinked(gq, ns)
    ensures 0 <= gq[0].id < |ns| && ns[gq[0].id].child == FirstId(gq[0].kids)
    ensures KidsLinked(gq[0].id, gq[0].kids, ns)
    ensures AllLinked(gq[1..] + gq[0].kids, ns)
    ensures Roots(Bfs(gq)) == [gq[0].id] + Roots(Bfs(gq[1..] + gq[0].kids))
    ensures Roots(gq[1..] + gq[0].kids) == Roots(gq)[1..] + Roots(gq[0].kids)
    ensures ForestSize(gq[1..] + gq[0].kids) < ForestSize(gq)
  {
    var t := gq[0];
    var next := gq[1..] + t.kids;
    assert Linked(t, ns);
    forall j | 0 <= j < |next| ensures Linked(next[j], ns) {
      if j < |gq| - 1 {
        assert next[j] == gq[j + 1];
      } else {
        LinkedKid(t, j - |gq| + 1, ns);
      }
    }
    assert Bfs(gq) == [t] + Bfs(next);
    RootsConcat([t], Bfs(next));
    RootsConcat(gq[1..], t.kids);
    BfsStep(gq);
    ForestSizeNodes(gq);
    ForestSizeNodes(next);
  }

  /**
   * The loop of to_queue after one more round: the head joins the output,
   * whose concatenation with the listing of the queue stays the same, and
   * dropping the head of the queue extended by its children leaves the
   * queue of the next round.
   */
  lemma ListAdvance(q: seq<int>, gq: seq<Tree>, ns: seq<Slot>, target: seq<int>, cq: seq<int>)
    requires |gq| > 0 && AllLinked(gq, ns) && q + Roots(Bfs(gq)) == target
    requires cq == Roots(gq) + Roots(gq[0].kids)
    ensures (q + [gq[0].id]) + Roots(Bfs(gq[1..] + gq[0].kids)) == target
    ensures |cq| > 0 && cq[1..] == Roots(gq[1..] + gq[0].kids)
    ensures AllLinked(gq[1..] + gq[0].kids, ns)
    ensures ForestSize(gq[1..] + gq[0].kids) < ForestSize(gq)
  {
    ListStep(gq, ns);
    QueueShift(q, gq[0].id, Roots(Bfs(gq[1..] + gq[0].kids)), Roots(gq), Roots(gq[0].kids));
  }

  /** Moving the head of a queue to the output, on plain sequences. */
  lemma QueueShift(q: seq<int>, x: int, r: seq<int>, a: seq<int>, b: seq<int>)
    requires |a| > 0
    ensures (q + [x]) + r == q + ([x] + r)
    ensures (a + b)[1..] == a[1..] + b
  {
  }

  // ---------------------------------------------------------------------
  // updatePriorities (PairingPQ.h:170-181)

  /**
   * The state of updatePriorities' loop over the listed trees vs after k
   * rounds: the running root stores acc and has a null sibling; melding
   * the remaining listed nodes into acc gives what melding all of them
   * into nothing does; acc holds the first k listed nodes; since the
   * start (ns0) no slot was added and no element changed.
   */
  ghost predicate RebuildInv(root: int, acc: Option<Tree>, ns: seq<Slot>, vs: seq<Tree>, k: int, ns0: seq<Slot>)
  {
    && 0 <= k <= |vs|
    && Stored(root, acc, ns)
    && (root != -1 ==> ns[root].sibling == -1)
    && Rebuild(acc, vs[k..]) == Rebuild(None, vs)
    && OptNodes(acc) == multiset(Roots(vs)[..k])
    && |ns| == |ns0| && EltsKept(ns0, ns)
  }

  /** The listed trees have distinct roots, each a slot that held its element at the start. */
  ghost predicate ListedOk(vs: seq<Tree>, ns0: seq<Slot>)
  {
    && NoDup(multiset(Roots(vs)))
    && (forall j | 0 <= j < |vs| :: 0 <= vs[j].id < |ns0| && ns0[vs[j].id].elt == vs[j].elt)
  }

  /** Every listed subtree of stored trees is stored. */
  lemma {:induction false} BfsLinked(gq: seq<Tree>, ns: seq<Slot>)
    requires AllLinked(gq, ns)
    ensures AllLinked(Bfs(gq), ns)
    decreases |ForestNodes(gq)|
  {
    if |gq| > 0 {
      var next := gq[1..] + gq[0].kids;
      ListStep(gq, ns);
      BfsStep(gq);
      BfsLinked(next, ns);
      assert Bfs(gq) == [gq[0]] + Bfs(next);
      assert Linked(gq[0], ns);
      forall j | 0 <= j < |Bfs(gq)| ensures Linked(Bfs(gq)[j], ns) {
        if j > 0 { assert Bfs(gq)[j] == Bfs(next)[j - 1]; }
      }
    }
  }

  /** Before the loop: nothing melded yet, and every listed node holds its element. */
  lemma RebuildStart(o: Option<Tree>, ns: seq<Slot>)
    ensures RebuildInv(-1, None, ns, Listing(o), 0, ns)
  {
    var vs := Listing(o);
    assert vs[0..] == vs;
    assert Roots(vs)[..0] == [];
  }

  /** The nodes to_queue lists for a stored heap are distinct and hold their elements. */
  lemma ListedStart(root: int, o: Option<Tree>, ns: seq<Slot>)
    requires Stored(root, o, ns)
    ensures ListedOk(Listing(o), ns)
  {
    ListedElts(o, ns);
    ListingProps(o);
  }

  /** Every node to_queue lists is a slot holding the listed tree's root element. */
  lemma ListedElts(o: Option<Tree>, ns: seq<Slot>)
    requires o.Some? ==> Linked(o.value, ns)
    ensures forall j | 0 <= j < |Listing(o)| :: 0 <= Listing(o)[j].id < |ns| && ns[Listing(o)[j].id].elt == Listing(o)[j].elt
  {
    if o.Some? {
      BfsLinked([o.value], ns);
      var vs := Listing(o);
      forall j | 0 <= j < |vs| ensures 0 <= vs[j].id < |ns| && ns[vs[j].id].elt == vs[j].elt {
        assert Linked(vs[j], ns);
      }
    }
  }

  /**
   * The k-th round's writes: clearing the three links of the next listed
   * node x leaves acc stored and stores x as a single node, apart from acc.
   */
  lemma RebuildPre(root: int, acc: Option<Tree>, ns: seq<Slot>, vs: seq<Tree>, k: int, ns0: seq<Slot>)
    requires RebuildInv(root, acc, ns, vs, k, ns0) && ListedOk(vs, ns0) && k < |vs|
    ensures 0 <= vs[k].id < |ns|
    ensures var x := vs[k].id;
      var ns' := ns[x := ns[x].(sibling := -1, child := -1, previous := -1)];
      && Stored(root, acc, ns')
      && Stored(x, Some(Single(vs[k])), ns')
      && OptNodes(acc) !! OptNodes(Some(Single(vs[k])))
      && (root != -1 ==> ns'[root].sibling == -1)
      && ns'[x].sibling == -1
      && EltsKept(ns0, ns') && |ns'| == |ns0|
  {
    var x := vs[k].id;
    NextApart(acc, vs, k);
    ResetKeeps(root, acc, ns, x);
    ResetSingle(vs[k], ns);
  }

  /** The next listed node is not yet in the running tree. */
  lemma NextApart(acc: Option<Tree>, vs: seq<Tree>, k: int)
    requires 0 <= k < |vs| && OptNodes(acc) == multiset(Roots(vs)[..k]) && NoDup(multiset(Roots(vs)))
    ensures vs[k].id !in OptNodes(acc)
  {
    NoDupPrefix(Roots(vs), k);
  }

  /** In a list without duplicates, no entry occurs before its own position. */
  lemma NoDupPrefix(rs: seq<int>, k: int)
    requires 0 <= k < |rs| && NoDup(multiset(rs))
    ensures rs[k] !in multiset(rs[..k])
  {
    assert rs == rs[..k] + rs[k..];
    assert rs[k..][0] == rs[k];
    NoDupSplit(multiset(rs[..k]), multiset(rs[k..]));
  }

  /** Clearing the links of a slot outside a stored tree keeps it stored. */
  lemma ResetKeeps(root: int, acc: Option<Tree>, ns: seq<Slot>, x: int)
    requires Stored(root, acc, ns) && 0 <= x < |ns| && x !in OptNodes(acc)
    ensures Stored(root, acc, ns[x := ns[x].(sibling := -1, child := -1, previous := -1)])
  {
    if acc.Some? {
      assert acc.value.id in Nodes(acc.value);
      LinkedFrame(acc.value, ns, ns[x := ns[x].(sibling := -1, child := -1, previous := -1)]);
    }
  }

  /** A slot holding v's element, with its links cleared, stores v as a single node. */
  lemma ResetSingle(v: Tree, ns: seq<Slot>)
    requires 0 <= v.id < |ns| && ns[v.id].elt == v.elt
    ensures Stored(v.id, Some(Single(v)), ns[v.id := ns[v.id].(sibling := -1, child := -1, previous := -1)])
    ensures OptNodes(Some(Single(v))) == multiset{v.id}
  {
    assert Nodes(Single(v)) == multiset{v.id};
  }

  /** The k-th round's meld: the running root takes the k-th listed node. */
  lemma RebuildPost(root: int, acc: Option<Tree>, ns: seq<Slot>, vs: seq<Tree>, k: int, ns0: seq<Slot>,
                    ns': seq<Slot>, r: int, ns'': seq<Slot>)
    requires RebuildInv(root, acc, ns, vs, k, ns0) && k < |vs|
    requires 0 <= vs[k].id < |ns'| && ns'[vs[k].id].sibling == -1
    requires root != -1 ==> 0 <= root < |ns'| && ns'[root].sibling == -1
    requires EltsKept(ns0, ns') && |ns'| == |ns0|
    requires Stored(r, Meld(acc, Some(Single(vs[k]))), ns'')
    requires Stored(root, acc, ns')
    requires |ns''| == |ns'| && EltsKept(ns', ns'') && SiblingKept(ns', ns'', r)
    ensures RebuildInv(r, Meld(acc, Some(Single(vs[k]))), ns'', vs, k + 1, ns0)
  {
    MeldSingle(acc, vs[k]);
    MeldRoot(acc, vs[k]);
    RebuildNext(acc, vs, k);
    EltsTrans(ns0, ns', ns'');
  }

  /** The root of the meld is the running root or the new node. */
  lemma MeldRoot(acc: Option<Tree>, v: Tree)
    ensures Meld(acc, Some(Single(v))).value.id == (if acc.Some? then acc.value.id else v.id) ||
            Meld(acc, Some(Single(v))).value.id == v.id
  {
    if acc.Some? {
      LinkShape(acc.value, Single(v));
    }
  }

  /** After the k-th meld, the running tree holds the first k + 1 listed nodes and the same work remains. */
  lemma RebuildNext(acc: Option<Tree>, vs: seq<Tree>, k: int)
    requires 0 <= k < |vs| && OptNodes(acc) == multiset(Roots(vs)[..k])
    requires Rebuild(acc, vs[k..]) == Rebuild(None, vs)
    ensures Rebuild(Meld(acc, Some(Single(vs[k]))), vs[k + 1..]) == Rebuild(None, vs)
    ensures OptNodes(Meld(acc, Some(Single(vs[k])))) == multiset(Roots(vs)[..k + 1])
  {
    RebuildWork(acc, vs, k);
    MeldSingle(acc, vs[k]);
    RootsPrefix(vs, k);
  }

  /** Melding in the k-th listed node leaves the rest of the list to meld. */
  lemma RebuildWork(acc: Option<Tree>, vs: seq<Tree>, k: int)
    requires 0 <= k < |vs|
    ensures Rebuild(acc, vs[k..]) == Rebuild(Meld(acc, Some(Single(vs[k]))), vs[k + 1..])
  {
    RebuildHead(acc, vs[k..]);
    assert vs[k..][0] == vs[k] && vs[k..][1..] == vs[k + 1..];
  }

  /** The first k + 1 listed roots are the first k and the k-th. */
  lemma RootsPrefix(vs: seq<Tree>, k: int)
    requires 0 <= k < |vs|
    ensures multiset(Roots(vs)[..k + 1]) == multiset(Roots(vs)[..k]) + multiset{vs[k].id}
  {
    var rs := Roots(vs);
    assert rs[..k + 1] == rs[..k] + [rs[k]];
  }

  /** The queue's head is the k-th listed node, and its tail the rest. */
  lemma RebuildFront(q: seq<int>, vs: seq<Tree>, k: int)
    requires 0 <= k <= |vs| && q == Roots(vs)[k..] && |q| > 0
    ensures k < |vs| && q[0] == vs[k].id && q[1..] == Roots(vs)[k + 1..]
  {
  }

  /** Once the queue is empty, the running tree is the whole rebuild. */
  lemma RebuildEnd(root: int, acc: Option<Tree>, ns: seq<Slot>, vs: seq<Tree>, k: int, ns0: seq<Slot>)
    requires RebuildInv(root, acc, ns, vs, k, ns0) && |Roots(vs)[k..]| == 0
    ensures acc == Rebuild(None, vs) && RebuildInv(root, Rebuild(None, vs), ns, vs, |vs|, ns0)
  {
    assert vs[k..] == [];
  }

  /** One round of the rebuild. */
  lemma RebuildHead(acc: Option<Tree>, vs: seq<Tree>)
    requires |vs| > 0
    ensures Rebuild(acc, vs) == Rebuild(Meld(acc, Some(Single(vs[0]))), vs[1..])
  {
  }

  /**
   * What updatePriorities leaves behind for a heap o of size c: the root r
   * stores the rebuilt tree with a null sibling, which has o's handles and
   * elements and is heap-ordered; no slot was added and no element changed.
   */
  ghost predicate Rebuilt(o: Option<Tree>, c: nat, r: int, ns: seq<Slot>, ns0: seq<Slot>)
  {
    var t := Rebuild(None, Listing(o));
    && Inv(r, t, ns, Leaf, c)
    && OptNodes(t) == OptNodes(o) && OptElements(t) == OptElements(o)
    && OptOrdered(t)
    && |ns| == |ns0| && EltsKept(ns0, ns)
  }

  /** After the last round, the running root stores the rebuild, as Rebuilt says. */
  lemma RebuildDone(root: int, o: Option<Tree>, ns0: seq<Slot>, junk: BTree, c: nat,
                    r: int, acc: Option<Tree>, ns: seq<Slot>)
    requires Inv(root, o, ns0, junk, c)
    requires acc == Rebuild(None, Listing(o))
    requires RebuildInv(r, acc, ns, Listing(o), |Listing(o)|, ns0) && ListedOk(Listing(o), ns0)
    ensures Rebuilt(o, c, r, ns, ns0)
  {
    RebuildAll(o);
    OptSizeNodes(acc);
    OptSizeNodes(o);
  }
}
