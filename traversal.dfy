/**
 * The breadth-first listing of to_queue (PairingPQ.h:264-293) and the
 * linear rebuild of updatePriorities (PairingPQ.h:170-181) on abstract trees.
 */
module Traversal {
  import opened Trees
  import opened Pairing

  /**
   * The order in which to_queue (PairingPQ.h:264-293) lists the nodes: a
   * FIFO queue of subtrees; the front one is listed and its children are
   * appended, leftmost first.
   */
  ghost function Bfs(qs: seq<Tree>): seq<Tree>
    decreases |ForestNodes(qs)|
  {
    if |qs| == 0 then []
    else
      BfsStep(qs);
      [qs[0]] + Bfs(qs[1..] + qs[0].kids)
  }

  /** Replacing the front tree of a queue by its children loses exactly its root. */
  lemma BfsStep(qs: seq<Tree>)
    requires |qs| > 0
    ensures ForestNodes(qs[1..] + qs[0].kids) + multiset{qs[0].id} == ForestNodes(qs)
    ensures ForestElements(qs[1..] + qs[0].kids) + multiset{qs[0].elt} == ForestElements(qs)
    ensures |ForestNodes(qs[1..] + qs[0].kids)| < |ForestNodes(qs)|
  {
    ForestConcat(qs[1..], qs[0].kids);
    ForestElementsConcat(qs[1..], qs[0].kids);
  }

  /** The children of all trees of a list, concatenated: the next level down. */
  function AllKids(qs: seq<Tree>): seq<Tree>
  {
    if |qs| == 0 then [] else qs[0].kids + AllKids(qs[1..])
  }

  /** Every node is listed exactly as often as it occurs in the forest ... */
  lemma {:induction false} BfsNodes(qs: seq<Tree>)
    ensures multiset(Roots(Bfs(qs))) == ForestNodes(qs)
    decreases |ForestNodes(qs)|
  {
    if |qs| > 0 {
      var next := qs[1..] + qs[0].kids;
      BfsStep(qs);
      BfsNodes(next);
      assert Bfs(qs) == [qs[0]] + Bfs(next);
      assert Roots(Bfs(qs)) == [qs[0].id] + Roots(Bfs(next));
    }
  }

  /** ... and so is every element. */
  lemma {:induction false} BfsElements(qs: seq<Tree>)
    ensures RootElements(Bfs(qs)) == ForestElements(qs)
    decreases |ForestNodes(qs)|
  {
    if |qs| > 0 {
      var next := qs[1..] + qs[0].kids;
      BfsStep(qs);
      BfsElements(next);
      assert Bfs(qs) == [qs[0]] + Bfs(next);
      assert Bfs(qs)[1..] == Bfs(next);
    }
  }

  lemma {:induction false} BfsLevelsGen(a: seq<Tree>, b: seq<Tree>)
    ensures Bfs(a + b) == a + Bfs(b + AllKids(a))
    decreases |a|
  {
    if |a| == 0 {
      assert a + b == b;
      assert b + [] == b;
    } else {
      var x := a[0];
      var a' := a[1..];
      assert (a + b)[0] == x;
      assert (a + b)[1..] + x.kids == a' + (b + x.kids);
      BfsLevelsGen(a', b + x.kids);
      assert (b + x.kids) + AllKids(a') == b + AllKids(a);
      assert a == [x] + a';
    }
  }

  /** The listing is breadth-first: a whole level, then the level below it. */
  lemma BfsLevels(qs: seq<Tree>)
    ensures Bfs(qs) == qs + Bfs(AllKids(qs))
  {
    BfsLevelsGen(qs, []);
    assert qs + [] == qs;
    assert [] + AllKids(qs) == AllKids(qs);
  }

  /**
   * The rebuild of updatePriorities (PairingPQ.h:170-181): each listed
   * node, isolated, is melded into the running root as meld's second
   * argument.
   */
  ghost function Rebuild(acc: Option<Tree>, vs: seq<Tree>): Option<Tree>
    decreases |vs|
  {
    if |vs| == 0 then acc else Rebuild(Meld(acc, Some(Single(vs[0]))), vs[1..])
  }

  /** Melding in one isolated node adds its handle and its element. */
  lemma MeldSingle(acc: Option<Tree>, v: Tree)
    ensures Meld(acc, Some(Single(v))).Some?
    ensures OptNodes(Meld(acc, Some(Single(v)))) == OptNodes(acc) + multiset{v.id}
    ensures OptElements(Meld(acc, Some(Single(v)))) == OptElements(acc) + multiset{v.elt}
  {
    MeldProps(acc, Some(Single(v)));
    assert Nodes(Single(v)) == multiset{v.id};
    assert Elements(Single(v)) == multiset{v.elt};
  }

  lemma {:induction false} RebuildNodes(acc: Option<Tree>, vs: seq<Tree>)
    ensures OptNodes(Rebuild(acc, vs)) == OptNodes(acc) + multiset(Roots(vs))
    ensures acc.Some? || |vs| > 0 ==> Rebuild(acc, vs).Some?
    decreases |vs|
  {
    if |vs| > 0 {
      MeldSingle(acc, vs[0]);
      RebuildNodes(Meld(acc, Some(Single(vs[0]))), vs[1..]);
      assert Roots(vs) == [vs[0].id] + Roots(vs[1..]);
    }
  }

  lemma {:induction false} RebuildElements(acc: Option<Tree>, vs: seq<Tree>)
    ensures OptElements(Rebuild(acc, vs)) == OptElements(acc) + RootElements(vs)
    decreases |vs|
  {
    if |vs| > 0 {
      MeldSingle(acc, vs[0]);
      RebuildElements(Meld(acc, Some(Single(vs[0]))), vs[1..]);
    }
  }

  lemma {:induction false} RebuildOrdered(acc: Option<Tree>, vs: seq<Tree>)
    requires OptOrdered(acc)
    ensures OptOrdered(Rebuild(acc, vs))
    decreases |vs|
  {
    if |vs| > 0 {
      var s := Single(vs[0]);
      var acc' := Meld(acc, Some(s));
      assert HeapOrdered(s);
      MeldProps(acc, Some(s));
      RebuildOrdered(acc', vs[1..]);
    }
  }

  /**
   * The rebuild melds every listed node into the running root: the result
   * holds the running root's handles and elements and those of every listed
   * node, and it is heap-ordered whenever the running root was.
   */
  lemma RebuildProps(acc: Option<Tree>, vs: seq<Tree>)
    ensures OptNodes(Rebuild(acc, vs)) == OptNodes(acc) + multiset(Roots(vs))
    ensures OptElements(Rebuild(acc, vs)) == OptElements(acc) + RootElements(vs)
    ensures OptOrdered(acc) ==> OptOrdered(Rebuild(acc, vs))
    ensures acc.Some? || |vs| > 0 ==> Rebuild(acc, vs).Some?
  {
    RebuildNodes(acc, vs);
    RebuildElements(acc, vs);
    if OptOrdered(acc) { RebuildOrdered(acc, vs); }
  }

  /** The nodes to_queue lists for a heap whose tree is o: none for the empty heap. */
  ghost function Listing(o: Option<Tree>): seq<Tree>
  {
    if o.None? then [] else Bfs([o.value])
  }

  /**
   * to_queue lists every node of the heap exactly once, with its element,
   * the root first and then level by level.
   */
  lemma ListingProps(o: Option<Tree>)
    ensures multiset(Roots(Listing(o))) == OptNodes(o)
    ensures RootElements(Listing(o)) == OptElements(o)
    ensures o.Some? ==> Listing(o) == [o.value] + Bfs(o.value.kids)
  {
    if o.Some? {
      var t := o.value;
      BfsNodes([t]);
      BfsElements([t]);
      assert [t][1..] + t.kids == t.kids;
    }
  }

  /**
   * updatePriorities as a whole: melding the listed nodes one by one gives
   * a tree with the same handles and elements, heap-ordered whatever the
   * order was before, and empty exactly when the heap was.
   */
  lemma RebuildAll(o: Option<Tree>)
    ensures Rebuild(None, Listing(o)).Some? <==> o.Some?
    ensures OptNodes(Rebuild(None, Listing(o))) == OptNodes(o)
    ensures OptElements(Rebuild(None, Listing(o))) == OptElements(o)
    ensures OptOrdered(Rebuild(None, Listing(o)))
  {
    ListingProps(o);
    var vs := Listing(o);
    RebuildProps(None, vs);
  }
}
