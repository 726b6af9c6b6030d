/**
 * The child/sibling view of the arena: following `child` and `sibling`
 * from a node visits a binary tree. copy_non_recursive (PairingPQ.h:81-127)
 * walks exactly this binary tree, including the part reached through the
 * root's own `sibling` link, which pop may leave pointing back into the
 * heap.
 */
module Binary {
  import opened Trees
  import opened Arena

  /** A node reached through `child` (left) and `sibling` (right). */
  datatype BTree = Leaf | BNode(id: int, elt: int, left: BTree, right: BTree)

  /** The slot a binary tree starts at, -1 for the null link. */
  function BId(b: BTree): int
  {
    if b.Leaf? then -1 else b.id
  }

  /** The handles of a binary tree, with multiplicity. */
  function BIds(b: BTree): multiset<int>
  {
    if b.Leaf? then multiset{} else multiset{b.id} + BIds(b.left) + BIds(b.right)
  }

  /** The elements of a binary tree, with multiplicity. */
  function BElements(b: BTree): multiset<int>
  {
    if b.Leaf? then multiset{} else multiset{b.elt} + BElements(b.left) + BElements(b.right)
  }

  /** The slots store b: each node's element, `child` and `sibling` are those of b. */
  ghost predicate BinLinked(b: BTree, ns: seq<Slot>)
  {
    b.BNode? ==>
      && 0 <= b.id < |ns|
      && ns[b.id].elt == b.elt
      && ns[b.id].child == BId(b.left)
      && ns[b.id].sibling == BId(b.right)
      && BinLinked(b.left, ns)
      && BinLinked(b.right, ns)
  }

  lemma {:induction false} BinIdsRange(b: BTree, ns: seq<Slot>)
    requires BinLinked(b, ns)
    ensures forall x | x in BIds(b) :: 0 <= x < |ns|
  {
    if b.BNode? {
      BinIdsRange(b.left, ns);
      BinIdsRange(b.right, ns);
    }
  }

  /** A stored binary tree stays stored when none of its slots changes. */
  lemma {:induction false} BinFrame(b: BTree, ns: seq<Slot>, ns': seq<Slot>)
    requires BinLinked(b, ns) && |ns| <= |ns'|
    requires forall x | x in BIds(b) && 0 <= x < |ns| :: ns'[x] == ns[x]
    ensures BinLinked(b, ns')
  {
    if b.BNode? {
      assert b.id in BIds(b);
      BinFrame(b.left, ns, ns');
      BinFrame(b.right, ns, ns');
    }
  }

  /**
   * The binary view of a child list: the first tree's children on the
   * left, its right siblings on the right.
   */
  function Bin(ks: seq<Tree>): BTree
    decreases ks
  {
    if |ks| == 0 then Leaf else BNode(ks[0].id, ks[0].elt, Bin(ks[0].kids), Bin(ks[1..]))
  }

  /** From the binary view back to a child list. */
  function Kids(b: BTree): seq<Tree>
  {
    if b.Leaf? then [] else [Node(b.id, b.elt, Kids(b.left))] + Kids(b.right)
  }

  /** The two views are inverse to each other, one way ... */
  lemma {:induction false} KidsBin(ks: seq<Tree>)
    ensures Kids(Bin(ks)) == ks
    decreases ks
  {
    if |ks| > 0 {
      KidsBin(ks[0].kids);
      KidsBin(ks[1..]);
      assert ks == [ks[0]] + ks[1..];
    }
  }

  /** ... and the other way. */
  lemma {:induction false} BinKids(b: BTree)
    ensures Bin(Kids(b)) == b
  {
    if b.BNode? {
      BinKids(b.left);
      BinKids(b.right);
      var ks := Kids(b);
      assert ks[0] == Node(b.id, b.elt, Kids(b.left));
      assert ks[1..] == Kids(b.right);
    }
  }

  /** The binary view holds the handles and elements of the forest. */
  lemma {:induction false} BinIds(ks: seq<Tree>)
    ensures BIds(Bin(ks)) == ForestNodes(ks)
    ensures BElements(Bin(ks)) == ForestElements(ks)
    decreases ks
  {
    if |ks| > 0 {
      BinIds(ks[0].kids);
      BinIds(ks[1..]);
    }
  }

  /** A stored child list is stored in its binary view. */
  lemma {:induction false} LinkedBin(p: int, ks: seq<Tree>, ns: seq<Slot>)
    requires KidsLinked(p, ks, ns)
    ensures BinLinked(Bin(ks), ns)
    decreases ks
  {
    if |ks| > 0 {
      assert KidLinked(p, ks, 0, ns) && Linked(ks[0], ns);
      LinkedBin(ks[0].id, ks[0].kids, ns);
      forall i | 0 <= i < |ks[1..]| ensures KidLinked(ks[0].id, ks[1..], i, ns) && Linked(ks[1..][i], ns) {
        assert KidLinked(p, ks, i + 1, ns) && Linked(ks[i + 1], ns);
        assert ks[1..][i] == ks[i + 1];
        if i > 0 { assert ks[1..][i - 1] == ks[i]; }
        if i + 1 < |ks[1..]| { assert ks[1..][i + 1] == ks[i + 2]; }
      }
      assert KidsLinked(ks[0].id, ks[1..], ns);
      LinkedBin(ks[0].id, ks[1..], ns);
      if |ks| > 1 { assert ks[1..][0] == ks[1]; }
    }
  }

  /** The binary subtree that starts at handle x, which occurs in b. */
  function BinAt(b: BTree, x: int): (r: BTree)
    requires x in BIds(b)
    ensures BId(r) == x
  {
    if b.id == x then b
    else if x in BIds(b.left) then BinAt(b.left, x)
    else BinAt(b.right, x)
  }

  /** Every handle of a stored binary tree starts a stored binary subtree. */
  lemma {:induction false} BinAtLinked(b: BTree, x: int, ns: seq<Slot>)
    requires BinLinked(b, ns) && x in BIds(b)
    ensures BinLinked(BinAt(b, x), ns)
  {
    if b.id != x {
      if x in BIds(b.left) {
        BinAtLinked(b.left, x, ns);
      } else {
        BinAtLinked(b.right, x, ns);
      }
    }
  }

  lemma {:induction false} BinAtIds(b: BTree, x: int)
    requires x in BIds(b)
    ensures BIds(BinAt(b, x)) <= BIds(b)
  {
    if b.id != x {
      if x in BIds(b.left) {
        BinAtIds(b.left, x);
      } else {
        BinAtIds(b.right, x);
      }
    }
  }
}
