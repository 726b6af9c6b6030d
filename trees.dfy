/**
 * The abstract shape of a pairing heap: a multiway tree whose nodes carry the
 * handle of the arena slot that stores them and the element held there.
 * Everything in this module is pure; the arena and the class that mutates it
 * are related to these trees by the predicates of module Arena.
 */
module Trees {

  datatype Option<T> = None | Some(value: T)

  /** A node with its handle, its element, and its children from left to right. */
  datatype Tree = Node(id: int, elt: int, kids: seq<Tree>)

  /** The handles of all nodes of a tree, with multiplicity. */
  function Nodes(t: Tree): multiset<int>
    decreases t
  {
    multiset{t.id} + ForestNodes(t.kids)
  }

  function ForestNodes(ks: seq<Tree>): multiset<int>
    decreases ks
  {
    if |ks| == 0 then multiset{} else Nodes(ks[0]) + ForestNodes(ks[1..])
  }

  /** The elements stored in a tree, with multiplicity. */
  function Elements(t: Tree): multiset<int>
    decreases t
  {
    multiset{t.elt} + ForestElements(t.kids)
  }

  function ForestElements(ks: seq<Tree>): multiset<int>
    decreases ks
  {
    if |ks| == 0 then multiset{} else Elements(ks[0]) + ForestElements(ks[1..])
  }

  function OptNodes(o: Option<Tree>): multiset<int>
  {
    if o.None? then multiset{} else Nodes(o.value)
  }

  function OptElements(o: Option<Tree>): multiset<int>
  {
    if o.None? then multiset{} else Elements(o.value)
  }

  /** The number of nodes of a tree. */
  function Size(t: Tree): nat
    decreases t
  {
    1 + ForestSize(t.kids)
  }

  function ForestSize(ks: seq<Tree>): nat
    decreases ks
  {
    if |ks| == 0 then 0 else Size(ks[0]) + ForestSize(ks[1..])
  }

  function OptSize(o: Option<Tree>): nat
  {
    if o.None? then 0 else Size(o.value)
  }

  /** No handle occurs twice. */
  ghost predicate NoDup(m: multiset<int>)
  {
    forall x | x in m :: m[x] == 1
  }

  ghost predicate Distinct(t: Tree)
  {
    NoDup(Nodes(t))
  }

  /**
   * Heap order under the comparator `<`: no child is more extreme than its
   * parent, i.e. `parent < child` never holds.
   */
  ghost predicate HeapOrdered(t: Tree)
    decreases t
  {
    forall i | 0 <= i < |t.kids| :: !(t.elt < t.kids[i].elt) && HeapOrdered(t.kids[i])
  }

  ghost predicate AllOrdered(ks: seq<Tree>)
  {
    forall i | 0 <= i < |ks| :: HeapOrdered(ks[i])
  }

  ghost predicate OptOrdered(o: Option<Tree>)
  {
    o.Some? ==> HeapOrdered(o.value)
  }

  /** The handle of the first tree of a list, or -1 (the null link) for an empty list. */
  function FirstId(ks: seq<Tree>): int
  {
    if |ks| == 0 then -1 else ks[0].id
  }

  /** The handles of the roots of a list of trees, in order. */
  function Roots(ks: seq<Tree>): (r: seq<int>)
    ensures |r| == |ks|
    ensures forall i | 0 <= i < |ks| :: r[i] == ks[i].id
  {
    if |ks| == 0 then [] else [ks[0].id] + Roots(ks[1..])
  }

  /** The elements at the roots of a list of trees, with multiplicity. */
  function RootElements(ks: seq<Tree>): multiset<int>
  {
    if |ks| == 0 then multiset{} else multiset{ks[0].elt} + RootElements(ks[1..])
  }

  // ---------------------------------------------------------------------
  // Lemmas about forests

  lemma {:induction false} ForestConcat(a: seq<Tree>, b: seq<Tree>)
    ensures ForestNodes(a + b) == ForestNodes(a) + ForestNodes(b)
    decreases |a|
  {
    if |a| == 0 {
      assert a + b == b;
    } else {
      assert (a + b)[1..] == a[1..] + b;
      ForestConcat(a[1..], b);
    }
  }

  lemma {:induction false} ForestElementsConcat(a: seq<Tree>, b: seq<Tree>)
    ensures ForestElements(a + b) == ForestElements(a) + ForestElements(b)
    decreases |a|
  {
    if |a| == 0 {
      assert a + b == b;
    } else {
      assert (a + b)[1..] == a[1..] + b;
      ForestElementsConcat(a[1..], b);
    }
  }

  lemma {:induction false} RootsConcat(a: seq<Tree>, b: seq<Tree>)
    ensures Roots(a + b) == Roots(a) + Roots(b)
    ensures RootElements(a + b) == RootElements(a) + RootElements(b)
    decreases |a|
  {
    if |a| == 0 {
      assert a + b == b;
    } else {
      assert (a + b)[1..] == a[1..] + b;
      RootsConcat(a[1..], b);
    }
  }

  /** Splitting a forest around its i-th tree. */
  lemma ForestAt(ks: seq<Tree>, i: int)
    requires 0 <= i < |ks|
    ensures ForestNodes(ks) == ForestNodes(ks[..i]) + Nodes(ks[i]) + ForestNodes(ks[i+1..])
    ensures ForestElements(ks) == ForestElements(ks[..i]) + Elements(ks[i]) + ForestElements(ks[i+1..])
  {
    ForestNodesAt(ks, i);
    ForestElementsAt(ks, i);
  }

  lemma ForestNodesAt(ks: seq<Tree>, i: int)
    requires 0 <= i < |ks|
    ensures ForestNodes(ks) == ForestNodes(ks[..i]) + Nodes(ks[i]) + ForestNodes(ks[i+1..])
  {
    var r := ks[i..];
    assert ks == ks[..i] + r;
    assert r[0] == ks[i] && r[1..] == ks[i+1..];
    ForestConcat(ks[..i], r);
  }

  lemma ForestElementsAt(ks: seq<Tree>, i: int)
    requires 0 <= i < |ks|
    ensures ForestElements(ks) == ForestElements(ks[..i]) + Elements(ks[i]) + ForestElements(ks[i+1..])
  {
    var r := ks[i..];
    assert ks == ks[..i] + r;
    assert r[0] == ks[i] && r[1..] == ks[i+1..];
    ForestElementsConcat(ks[..i], r);
  }

  lemma ForestContains(ks: seq<Tree>, i: int)
    requires 0 <= i < |ks|
    ensures Nodes(ks[i]) <= ForestNodes(ks)
    ensures Elements(ks[i]) <= ForestElements(ks)
  {
    ForestAt(ks, i);
  }

  lemma NodesIn(ks: seq<Tree>, i: int)
    requires 0 <= i < |ks|
    ensures Nodes(ks[i]) <= ForestNodes(ks)
  {
    ForestNodesAt(ks, i);
  }

  lemma KidRootIn(ks: seq<Tree>, i: int)
    requires 0 <= i < |ks|
    ensures ks[i].id in ForestNodes(ks)
  {
    ForestContains(ks, i);
    assert ks[i].id in Nodes(ks[i]);
  }

  /** Two different trees of a forest together are part of the forest. */
  lemma ForestPair(ks: seq<Tree>, i: int, j: int)
    requires 0 <= i < j < |ks|
    ensures Nodes(ks[i]) + Nodes(ks[j]) <= ForestNodes(ks)
  {
    ForestNodesAt(ks, i);
    NodesIn(ks[i+1..], j - i - 1);
    assert ks[i+1..][j - i - 1] == ks[j];
    SubUnion(ForestNodes(ks[..i]), Nodes(ks[i]), ForestNodes(ks[i+1..]), Nodes(ks[j]));
  }

  lemma SubUnion(a: multiset<int>, b: multiset<int>, c: multiset<int>, d: multiset<int>)
    requires d <= c
    ensures b + d <= a + b + c
  {
  }

  lemma NoDupSub(a: multiset<int>, b: multiset<int>)
    requires a <= b && NoDup(b)
    ensures NoDup(a)
  {
  }

  lemma NoDupSplit(a: multiset<int>, b: multiset<int>)
    requires NoDup(a + b)
    ensures NoDup(a) && NoDup(b) && a !! b
  {
    forall x | x in a ensures a[x] == 1 && x !in b {
      assert (a + b)[x] == a[x] + b[x];
      assert x in a + b;
    }
    forall x | x in b ensures b[x] == 1 {
      assert (a + b)[x] == a[x] + b[x];
      assert x in a + b;
    }
  }

  /**
   * What distinct handles say about a node and its child list: the node's
   * own handle is nowhere below it, every child's subtree is distinct, and
   * the subtrees of two different children share no handle.
   */
  lemma DistinctKids(t: Tree)
    requires Distinct(t)
    ensures NoDup(ForestNodes(t.kids)) && t.id !in ForestNodes(t.kids)
    ensures forall i | 0 <= i < |t.kids| :: Distinct(t.kids[i]) && t.id !in Nodes(t.kids[i])
    ensures forall i, j | 0 <= i < j < |t.kids| :: Nodes(t.kids[i]) !! Nodes(t.kids[j])
  {
    NoDupSplit(multiset{t.id}, ForestNodes(t.kids));
    forall i | 0 <= i < |t.kids| ensures Distinct(t.kids[i]) && t.id !in Nodes(t.kids[i]) {
      ForestContains(t.kids, i);
      NoDupSub(Nodes(t.kids[i]), ForestNodes(t.kids));
    }
    forall i, j | 0 <= i < j < |t.kids| ensures Nodes(t.kids[i]) !! Nodes(t.kids[j]) {
      ForestPair(t.kids, i, j);
      NoDupSub(Nodes(t.kids[i]) + Nodes(t.kids[j]), ForestNodes(t.kids));
      NoDupSplit(Nodes(t.kids[i]), Nodes(t.kids[j]));
    }
  }

  /** The same for a queue of trees: distinct trees with pairwise disjoint handles. */
  lemma DistinctForest(ks: seq<Tree>)
    requires NoDup(ForestNodes(ks))
    ensures forall i | 0 <= i < |ks| :: Distinct(ks[i])
    ensures forall i, j | 0 <= i < j < |ks| :: Nodes(ks[i]) !! Nodes(ks[j])
  {
    forall i | 0 <= i < |ks| ensures Distinct(ks[i]) {
      ForestContains(ks, i);
      NoDupSub(Nodes(ks[i]), ForestNodes(ks));
    }
    forall i, j | 0 <= i < j < |ks| ensures Nodes(ks[i]) !! Nodes(ks[j]) {
      ForestPair(ks, i, j);
      NoDupSub(Nodes(ks[i]) + Nodes(ks[j]), ForestNodes(ks));
      NoDupSplit(Nodes(ks[i]), Nodes(ks[j]));
    }
  }

  lemma NoDupUnion(a: multiset<int>, b: multiset<int>)
    requires NoDup(a) && NoDup(b) && a !! b
    ensures NoDup(a + b)
  {
    forall x | x in a + b ensures (a + b)[x] == 1 {
      assert (a + b)[x] == a[x] + b[x];
    }
  }

  /** A tree holds one element per node. */
  lemma {:induction false} SizeCount(t: Tree)
    ensures |Elements(t)| == |Nodes(t)|
    decreases t, 1
  {
    ForestSizeCount(t.kids);
  }

  lemma {:induction false} ForestSizeCount(ks: seq<Tree>)
    ensures |ForestElements(ks)| == |ForestNodes(ks)|
    decreases ks, 0
  {
    if |ks| > 0 {
      SizeCount(ks[0]);
      ForestSizeCount(ks[1..]);
    }
  }

  /** The size of a tree is the number of its handles, counted with multiplicity. */
  lemma {:induction false} SizeNodes(t: Tree)
    ensures Size(t) == |Nodes(t)|
    decreases t, 1
  {
    ForestSizeNodes(t.kids);
  }

  lemma {:induction false} ForestSizeNodes(ks: seq<Tree>)
    ensures ForestSize(ks) == |ForestNodes(ks)|
    decreases ks, 0
  {
    if |ks| > 0 {
      SizeNodes(ks[0]);
      ForestSizeNodes(ks[1..]);
    }
  }

  lemma OptSizeNodes(o: Option<Tree>)
    ensures OptSize(o) == |OptNodes(o)|
  {
    if o.Some? { SizeNodes(o.value); }
  }

  /** Under heap order no element of a tree is more extreme than its root. */
  lemma {:induction false} TopIsMax(t: Tree)
    requires HeapOrdered(t)
    ensures forall x | x in Elements(t) :: !(t.elt < x)
    decreases t, 1
  {
    ForestBounded(t.kids, t.elt);
  }

  lemma {:induction false} ForestBounded(ks: seq<Tree>, b: int)
    requires forall i | 0 <= i < |ks| :: !(b < ks[i].elt) && HeapOrdered(ks[i])
    ensures forall x | x in ForestElements(ks) :: !(b < x)
    decreases ks, 0
  {
    if |ks| > 0 {
      TopIsMax(ks[0]);
      ForestBounded(ks[1..], b);
    }
  }
}
