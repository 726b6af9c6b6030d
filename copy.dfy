/**
 * The copy constructor of PairingPQ.h (lines 70-79) and copy_non_recursive
 * (lines 81-127). The copy walks the child/sibling binary tree of the
 * source, level by level, with two queues: the source nodes still to copy
 * and the copies waiting for their links. Since it follows the root's own
 * `sibling` link too, it also copies whatever that stale link reaches, into
 * slots that nothing else in the copy reaches.
 */
module Copying {
  import opened Trees
  import opened Arena
  import opened Binary
  import opened HeapState

  // ---------------------------------------------------------------------
  // Shapes without handles

  /** A tree with every handle replaced by 0: its shape and elements only. */
  function Erase(t: Tree): Tree
    decreases t, 1
  {
    Node(0, t.elt, EraseForest(t.kids))
  }

  function EraseForest(ks: seq<Tree>): (r: seq<Tree>)
    ensures |r| == |ks|
    ensures forall i | 0 <= i < |ks| :: r[i] == Erase(ks[i])
    decreases ks, 0
  {
    if |ks| == 0 then [] else [Erase(ks[0])] + EraseForest(ks[1..])
  }

  /** A binary tree with every handle replaced by 0. */
  function BErase(b: BTree): BTree
  {
    if b.Leaf? then Leaf else BNode(0, b.elt, BErase(b.left), BErase(b.right))
  }

  /** Erasing handles commutes with going from the binary view to the child list. */
  lemma {:induction false} KidsErase(b: BTree)
    ensures Kids(BErase(b)) == EraseForest(Kids(b))
  {
    if b.BNode? {
      KidsErase(b.left);
      KidsErase(b.right);
      var ks := Kids(b);
      assert ks[0] == Node(b.id, b.elt, Kids(b.left)) && ks[1..] == Kids(b.right);
      assert EraseForest(ks) == [Erase(ks[0])] + EraseForest(ks[1..]);
    }
  }

  /** A tree and its erasure hold the same elements ... */
  lemma {:induction false} EraseElements(t: Tree)
    ensures Elements(Erase(t)) == Elements(t)
    decreases t, 1
  {
    EraseForestElements(t.kids);
  }

  lemma {:induction false} EraseForestElements(ks: seq<Tree>)
    ensures ForestElements(EraseForest(ks)) == ForestElements(ks)
    decreases ks, 0
  {
    if |ks| > 0 {
      EraseElements(ks[0]);
      EraseForestElements(ks[1..]);
      assert EraseForest(ks)[1..] == EraseForest(ks[1..]);
    }
  }

  /** ... have the same size ... */
  lemma {:induction false} EraseSize(t: Tree)
    ensures Size(Erase(t)) == Size(t)
    decreases t, 1
  {
    EraseForestSize(t.kids);
  }

  lemma {:induction false} EraseForestSize(ks: seq<Tree>)
    ensures ForestSize(EraseForest(ks)) == ForestSize(ks)
    decreases ks, 0
  {
    if |ks| > 0 {
      EraseSize(ks[0]);
      EraseForestSize(ks[1..]);
      assert EraseForest(ks)[1..] == EraseForest(ks[1..]);
    }
  }

  /** ... and one is heap-ordered exactly when the other is. */
  lemma {:induction false} EraseOrdered(t: Tree)
    ensures HeapOrdered(Erase(t)) <==> HeapOrdered(t)
    decreases t
  {
    forall i | 0 <= i < |t.kids| ensures HeapOrdered(Erase(t.kids[i])) <==> HeapOrdered(t.kids[i]) {
      EraseOrdered(t.kids[i]);
    }
    var e := Erase(t);
    assert forall i | 0 <= i < |t.kids| :: e.kids[i] == Erase(t.kids[i]);
  }

  // ---------------------------------------------------------------------
  // The copy under construction

  /** The number of nodes of a binary tree. */
  function BSize(b: BTree): nat
  {
    if b.Leaf? then 0 else 1 + BSize(b.left) + BSize(b.right)
  }

  /** The number of nodes of a queue of binary trees. */
  function QueueSize(gq: seq<BTree>): nat
  {
    if |gq| == 0 then 0 else BSize(gq[0]) + QueueSize(gq[1..])
  }

  lemma {:induction false} QueueSizeConcat(a: seq<BTree>, b: seq<BTree>)
    ensures QueueSize(a + b) == QueueSize(a) + QueueSize(b)
  {
    if |a| > 0 {
      assert (a + b)[0] == a[0] && (a + b)[1..] == a[1..] + b;
      QueueSizeConcat(a[1..], b);
    } else {
      assert a + b == b;
    }
  }

  /**
   * The slots store b with all three links: `child` and `sibling` as in
   * b, and `previous` pointing to the node b hangs from (p for b itself).
   */
  ghost predicate BinStored(b: BTree, p: int, ns: seq<Slot>)
  {
    b.BNode? ==>
      && 0 <= b.id < |ns|
      && ns[b.id].elt == b.elt
      && ns[b.id].child == BId(b.left)
      && ns[b.id].sibling == BId(b.right)
      && ns[b.id].previous == p
      && BinStored(b.left, b.id, ns)
      && BinStored(b.right, b.id, ns)
  }

  /**
   * The partial copy p copies b, except that each copy h waiting in the
   * queue is, for now, a node without links whose source subtree is w[h].
   */
  ghost predicate Sim(p: BTree, b: BTree, w: map<int, BTree>)
  {
    if p.Leaf? then b.Leaf?
    else
      && b.BNode? && p.elt == b.elt
      && if p.id in w then w[p.id] == b && p.left.Leaf? && p.right.Leaf?
         else Sim(p.left, b.left, w) && Sim(p.right, b.right, w)
  }

  /** p with the node x replaced by n. */
  function Replace(p: BTree, x: int, n: BTree): BTree
  {
    if p.Leaf? then Leaf
    else if p.id == x then n
    else BNode(p.id, p.elt, Replace(p.left, x, n), Replace(p.right, x, n))
  }

  /** A waiting copy at slot c of the source subtree b, if b is a node. */
  function Pend(c: int, b: BTree): BTree
  {
    if b.Leaf? then Leaf else BNode(c, b.elt, Leaf, Leaf)
  }

  /** The copy x of b once its child and sibling copies c and s exist. */
  function Grown(x: int, b: BTree, c: int, s: int): BTree
    requires b.BNode?
  {
    BNode(x, b.elt, Pend(c, b.left), Pend(s, b.right))
  }

  /** The waiting copies after x is linked to its new child c and sibling s. */
  ghost function Regrow(w: map<int, BTree>, x: int, b: BTree, c: int, s: int): map<int, BTree>
    requires b.BNode?
  {
    var w1 := w - {x};
    var w2 := if b.left.BNode? then w1[c := b.left] else w1;
    if b.right.BNode? then w2[s := b.right] else w2
  }

  /** The subtrees of b that are nodes, left first. */
  function Present(b: BTree): seq<BTree>
  {
    if b.Leaf? then [] else [b]
  }

  /** A queue with a and then b pushed, each unless null (PairingPQ.h:112-126). */
  function Grow(q: seq<int>, a: int, b: int): seq<int>
  {
    q + (if a == -1 then [] else [a]) + (if b == -1 then [] else [b])
  }

  /**
   * The partial copy p: the slots ns store it, its handles are distinct
   * slots, and it copies sb up to the waiting copies w, which are nodes of p.
   */
  ghost predicate TreeInv(sb: BTree, p: BTree, w: map<int, BTree>, ns: seq<Slot>)
  {
    && BinStored(p, -1, ns)
    && NoDup(BIds(p)) && (forall y | y in BIds(p) :: 0 <= y < |ns|)
    && Sim(p, sb, w)
    && (forall y | y in w :: y in BIds(p))
  }

  /**
   * The two queues of copy_non_recursive: the source queue oq holds the
   * roots of the subtrees gq still to copy, stored in ons, and the copy
   * queue tq holds, in increasing order and below n, the waiting copies
   * of the same subtrees, which are all the waiting copies.
   */
  ghost predicate QueueInv(ons: seq<Slot>, w: map<int, BTree>, oq: seq<int>, gq: seq<BTree>, tq: seq<int>, n: int)
  {
    && |oq| == |gq| && |tq| == |gq|
    && (forall i | 0 <= i < |gq| :: gq[i].BNode? && BinLinked(gq[i], ons) && oq[i] == gq[i].id)
    && (forall i | 0 <= i < |tq| :: tq[i] in w && w[tq[i]] == gq[i] && tq[i] < n)
    && (forall i, j | 0 <= i < j < |tq| :: tq[i] < tq[j])
    && (forall y | y in w :: y in tq)
  }

  /** The state of copy_non_recursive's loop (PairingPQ.h:90-127). */
  ghost predicate CopyInv(ons: seq<Slot>, sb: BTree, p: BTree, w: map<int, BTree>,
                          oq: seq<int>, gq: seq<BTree>, tq: seq<int>, ns: seq<Slot>)
  {
    TreeInv(sb, p, w, ns) && QueueInv(ons, w, oq, gq, tq, |ns|)
  }

  /** The source node b at the front, with its child oc and sibling os. */
  ghost predicate FrontOk(ons: seq<Slot>, b: BTree, oc: int, os: int)
  {
    && b.BNode? && BinLinked(b, ons)
    && oc == BId(b.left) && os == BId(b.right)
    && (oc == -1 || (0 <= oc < |ons| && ons[oc].elt == b.left.elt))
    && (os == -1 || (0 <= os < |ons| && ons[os].elt == b.right.elt))
  }

  /**
   * The writes of one round (PairingPQ.h:97-110) on the copy slots ns:
   * fresh copies c and s of the source child oc and sibling os are
   * appended, unless null; x points to them and they point back to x.
   */
  ghost predicate Copied(ns: seq<Slot>, ns': seq<Slot>, x: int, c: int, s: int, oc: int, os: int, ons: seq<Slot>)
    requires 0 <= x < |ns| && (oc == -1 || 0 <= oc < |ons|) && (os == -1 || 0 <= os < |ons|)
  {
    var n := |ns|;
    && c == (if oc == -1 then -1 else n)
    && s == (if os == -1 then -1 else if oc == -1 then n else n + 1)
    && |ns'| == n + (if oc == -1 then 0 else 1) + (if os == -1 then 0 else 1)
    && ns'[x] == ns[x].(child := c, sibling := s)
    && (c != -1 ==> ns'[c] == Slot(ons[oc].elt, -1, -1, x))
    && (s != -1 ==> ns'[s] == Slot(ons[os].elt, -1, -1, x))
    && forall y | 0 <= y < n && y != x :: ns'[y] == ns[y]
  }

  // ---------------------------------------------------------------------
  // Lemmas about the partial copy

  /** With no copy waiting, the copy has the source's shape and elements. */
  lemma {:induction false} SimDone(p: BTree, b: BTree)
    requires Sim(p, b, map[])
    ensures BErase(p) == BErase(b)
  {
    if p.BNode? {
      SimDone(p.left, b.left);
      SimDone(p.right, b.right);
    }
  }

  /** A waiting copy holds the element of its source. */
  lemma {:induction false} PendingElt(p: BTree, b: BTree, w: map<int, BTree>, par: int, ns: seq<Slot>, x: int)
    requires Sim(p, b, w) && BinStored(p, par, ns) && x in w && x in BIds(p)
    ensures w[x].BNode? && 0 <= x < |ns| && ns[x].elt == w[x].elt
  {
    if p.id != x {
      if p.id in w {
        assert false;
      } else if x in BIds(p.left) {
        PendingElt(p.left, b.left, w, p.id, ns, x);
      } else {
        PendingElt(p.right, b.right, w, p.id, ns, x);
      }
    }
  }

  /** Replacing a waiting copy by a copy of its source keeps the copy relation. */
  lemma {:induction false} SimReplace(p: BTree, b: BTree, w: map<int, BTree>, x: int, n: BTree, w': map<int, BTree>)
    requires Sim(p, b, w) && x in w && Sim(n, w[x], w')
    requires forall y | y in BIds(p) && y != x :: (y in w <==> y in w') && (y in w ==> w'[y] == w[y])
    ensures Sim(Replace(p, x, n), b, w')
  {
    if p.BNode? && p.id != x && p.id !in w {
      SimReplace(p.left, b.left, w, x, n, w');
      SimReplace(p.right, b.right, w, x, n, w');
    }
  }

  /** A tree with no node x is left alone by Replace. */
  lemma {:induction false} ReplaceAbsent(p: BTree, x: int, n: BTree)
    requires x !in BIds(p)
    ensures Replace(p, x, n) == p
  {
    if p.BNode? {
      ReplaceAbsent(p.left, x, n);
      ReplaceAbsent(p.right, x, n);
    }
  }

  /** Replacing a node keeps the root's handle. */
  lemma ReplaceId(p: BTree, x: int, n: BTree)
    requires n.BNode? && n.id == x
    ensures BId(Replace(p, x, n)) == BId(p)
  {
  }

  /**
   * The slots store the tree with x replaced by n when x's slot takes n's
   * links, n's subtrees are stored below x, and no other slot of p changes.
   */
  lemma {:induction false} StoredReplace(p: BTree, par: int, x: int, n: BTree, ns: seq<Slot>, ns': seq<Slot>)
    requires BinStored(p, par, ns) && |ns| <= |ns'|
    requires n.BNode? && n.id == x && 0 <= x < |ns'|
    requires ns'[x].elt == n.elt && ns'[x].child == BId(n.left) && ns'[x].sibling == BId(n.right)
    requires 0 <= x < |ns| ==> ns'[x].previous == ns[x].previous
    requires BinStored(n.left, x, ns') && BinStored(n.right, x, ns')
    requires forall y | y in BIds(p) && y != x && 0 <= y < |ns| :: ns'[y] == ns[y]
    ensures BinStored(Replace(p, x, n), par, ns')
  {
    if p.BNode? && p.id != x {
      StoredReplace(p.left, p.id, x, n, ns, ns');
      StoredReplace(p.right, p.id, x, n, ns, ns');
      ReplaceId(p.left, x, n);
      ReplaceId(p.right, x, n);
      assert p.id in BIds(p);
    }
  }

  /** Every node x of p is a node without links. */
  ghost predicate LeafAt(p: BTree, x: int)
  {
    p.BNode? ==>
      && (p.id == x ==> p.left.Leaf? && p.right.Leaf?)
      && LeafAt(p.left, x) && LeafAt(p.right, x)
  }

  /** A waiting copy has no links yet. */
  lemma {:induction false} SimLeafAt(p: BTree, b: BTree, w: map<int, BTree>, x: int)
    requires Sim(p, b, w) && x in w
    ensures LeafAt(p, x)
  {
    if p.BNode? && p.id !in w {
      SimLeafAt(p.left, b.left, w, x);
      SimLeafAt(p.right, b.right, w, x);
    }
  }

  /** Replacing a node x without links, which occurs once, trades its handle for n's handles. */
  lemma {:induction false} ReplaceIds(p: BTree, x: int, n: BTree)
    requires LeafAt(p, x) && BIds(p)[x] == 1
    ensures BIds(Replace(p, x, n)) + multiset{x} == BIds(p) + BIds(n)
  {
    if p.id != x {
      assert BIds(p)[x] == BIds(p.left)[x] + BIds(p.right)[x];
      var q := Replace(p, x, n);
      assert q == BNode(p.id, p.elt, Replace(p.left, x, n), Replace(p.right, x, n));
      if BIds(p.left)[x] == 1 {
        ReplaceIds(p.left, x, n);
        ReplaceAbsent(p.right, x, n);
        TradeIds(multiset{p.id}, BIds(p.left), BIds(q.left), BIds(p.right), BIds(n), x);
      } else {
        ReplaceIds(p.right, x, n);
        ReplaceAbsent(p.left, x, n);
        TradeLast(multiset{p.id} + BIds(p.left), BIds(p.right), BIds(q.right), BIds(n), x);
      }
    }
  }

  /** Trading x for m in one part of a sum trades it in the sum. */
  lemma TradeIds(a: multiset<int>, l: multiset<int>, l': multiset<int>, r: multiset<int>, m: multiset<int>, x: int)
    requires l' + multiset{x} == l + m
    ensures a + l' + r + multiset{x} == a + l + r + m
  {
    forall y ensures (a + l' + r + multiset{x})[y] == (a + l + r + m)[y] {
      assert (l' + multiset{x})[y] == (l + m)[y];
    }
  }

  lemma TradeLast(a: multiset<int>, r: multiset<int>, r': multiset<int>, m: multiset<int>, x: int)
    requires r' + multiset{x} == r + m
    ensures a + r' + multiset{x} == a + r + m
  {
    forall y ensures (a + r' + multiset{x})[y] == (a + r + m)[y] {
      assert (r' + multiset{x})[y] == (r + m)[y];
    }
  }

  // ---------------------------------------------------------------------
  // One round of copy_non_recursive's loop

  /** What the front of the queues says: the source front's links and their elements. */
  lemma CopyFront(ons: seq<Slot>, sb: BTree, p: BTree, w: map<int, BTree>,
                  oq: seq<int>, gq: seq<BTree>, tq: seq<int>, ns: seq<Slot>)
    requires CopyInv(ons, sb, p, w, oq, gq, tq, ns) && |oq| > 0
    ensures |tq| > 0 && |gq| > 0 && 0 <= tq[0] < |ns| && 0 <= oq[0] < |ons|
    ensures tq[0] in w && w[tq[0]] == gq[0] && tq[0] in BIds(p)
    ensures FrontOk(ons, gq[0], ons[oq[0]].child, ons[oq[0]].sibling)
  {
    assert tq[0] in w;
    assert BinLinked(gq[0], ons);
  }

  /** Where a round puts the copies of b's child and sibling: the next free slots. */
  ghost predicate Spots(b: BTree, n: int, c: int, s: int)
    requires b.BNode?
  {
    && c == (if b.left.Leaf? then -1 else n)
    && s == (if b.right.Leaf? then -1 else if b.left.Leaf? then n else n + 1)
  }

  /** The writes of a round, in terms of the front's subtrees. */
  lemma CopiedSpots(ons: seq<Slot>, b: BTree, oc: int, os: int, ns: seq<Slot>, ns': seq<Slot>, x: int, c: int, s: int)
    requires FrontOk(ons, b, oc, os) && 0 <= x < |ns| && Copied(ns, ns', x, c, s, oc, os, ons)
    ensures Spots(b, |ns|, c, s)
    ensures |ns'| == |ns| + (if b.left.Leaf? then 0 else 1) + (if b.right.Leaf? then 0 else 1)
    ensures ns'[x] == ns[x].(child := BId(Pend(c, b.left)), sibling := BId(Pend(s, b.right)))
    ensures BinStored(Pend(c, b.left), x, ns') && BinStored(Pend(s, b.right), x, ns')
    ensures forall y | 0 <= y < |ns| && y != x :: ns'[y] == ns[y]
  {
    assert BinLinked(b.left, ons) && BinLinked(b.right, ons);
  }

  /** After a round the slots store the grown copy. */
  lemma CopyStoredStep(ons: seq<Slot>, sb: BTree, p: BTree, w: map<int, BTree>, x: int, b: BTree,
                       oc: int, os: int, ns: seq<Slot>, ns': seq<Slot>, c: int, s: int)
    requires BinStored(p, -1, ns) && Sim(p, sb, w) && x in w && w[x] == b && x in BIds(p)
    requires FrontOk(ons, b, oc, os) && 0 <= x < |ns| && Copied(ns, ns', x, c, s, oc, os, ons)
    ensures BinStored(Replace(p, x, Grown(x, b, c, s)), -1, ns')
  {
    var n := Grown(x, b, c, s);
    CopiedSpots(ons, b, oc, os, ns, ns', x, c, s);
    PendingElt(p, sb, w, -1, ns, x);
    StoredReplace(p, -1, x, n, ns, ns');
  }

  /** After a round the copy's handles are the old ones and the fresh c and s. */
  lemma CopyIdsStep(p: BTree, x: int, b: BTree, n: nat, c: int, s: int)
    requires LeafAt(p, x) && x in BIds(p) && NoDup(BIds(p))
    requires forall y | y in BIds(p) :: 0 <= y < n
    requires b.BNode? && Spots(b, n, c, s)
    ensures var p' := Replace(p, x, Grown(x, b, c, s));
      && BIds(p') == BIds(p) + BIds(Pend(c, b.left)) + BIds(Pend(s, b.right))
      && NoDup(BIds(p'))
  {
    var g := Grown(x, b, c, s);
    ReplaceIds(p, x, g);
    CancelId(BIds(Replace(p, x, g)), BIds(p), BIds(Pend(c, b.left)), BIds(Pend(s, b.right)), x);
    FreshIds(BIds(p), b, n, c, s);
  }

  /** Cancelling x on both sides. */
  lemma CancelId(a: multiset<int>, b: multiset<int>, e1: multiset<int>, e2: multiset<int>, x: int)
    requires a + multiset{x} == b + (multiset{x} + e1 + e2)
    ensures a == b + e1 + e2
  {
    forall y ensures a[y] == (b + e1 + e2)[y] {
      assert (a + multiset{x})[y] == (b + (multiset{x} + e1 + e2))[y];
    }
  }

  /** A waiting copy's only handle is its own. */
  lemma PendIds(c: int, b: BTree)
    ensures BIds(Pend(c, b)) == if b.Leaf? then multiset{} else multiset{c}
  {
    if b.BNode? {
      assert BIds(Pend(c, b)) == multiset{c} + BIds(Leaf) + BIds(Leaf);
    }
  }

  /** Adding the fresh copies of a round to handles below n keeps them distinct. */
  lemma FreshIds(a: multiset<int>, b: BTree, n: int, c: int, s: int)
    requires NoDup(a) && (forall y | y in a :: y < n) && b.BNode? && Spots(b, n, c, s)
    ensures NoDup(a + BIds(Pend(c, b.left)) + BIds(Pend(s, b.right)))
  {
    var e1, e2 := BIds(Pend(c, b.left)), BIds(Pend(s, b.right));
    PendIds(c, b.left);
    PendIds(s, b.right);
    forall y | y in a + e1 + e2 ensures (a + e1 + e2)[y] == 1 {
      assert (a + e1 + e2)[y] == a[y] + e1[y] + e2[y];
      assert e1[y] == (if b.left.BNode? && y == c then 1 else 0);
      assert e2[y] == (if b.right.BNode? && y == s then 1 else 0);
      if y in a {
        assert y < n;
      }
    }
  }

  /** The fresh copies of a round are the next slots after n. */
  lemma FreshRange(a: multiset<int>, b: BTree, n: nat, c: int, s: int)
    requires (forall y | y in a :: 0 <= y < n) && b.BNode? && Spots(b, n, c, s)
    ensures forall y | y in a + BIds(Pend(c, b.left)) + BIds(Pend(s, b.right)) ::
      0 <= y < n + (if b.left.Leaf? then 0 else 1) + (if b.right.Leaf? then 0 else 1)
  {
    PendIds(c, b.left);
    PendIds(s, b.right);
  }

  /** Regrow leaves the waiting copies below n other than x alone. */
  lemma RegrowKeeps(w: map<int, BTree>, x: int, b: BTree, c: int, s: int, n: int)
    requires b.BNode? && (b.left.BNode? ==> c >= n) && (b.right.BNode? ==> s >= n)
    ensures var w' := Regrow(w, x, b, c, s);
      forall y | y < n && y != x :: (y in w' <==> y in w) && (y in w ==> w'[y] == w[y])
  {
  }

  /** Regrow drops x and adds the waiting copies c and s of b's subtrees. */
  lemma RegrowNew(w: map<int, BTree>, x: int, b: BTree, c: int, s: int)
    requires b.BNode? && c != x && s != x && (b.left.BNode? && b.right.BNode? ==> c != s)
    ensures var w' := Regrow(w, x, b, c, s);
      && x !in w'
      && (b.left.BNode? ==> c in w' && w'[c] == b.left)
      && (b.right.BNode? ==> s in w' && w'[s] == b.right)
      && forall y | y in w' :: (y == c && b.left.BNode?) || (y == s && b.right.BNode?) || (y in w && y != x)
  {
  }

  /** The grown copy copies b once its new children wait in w'. */
  lemma SimGrown(x: int, b: BTree, c: int, s: int, w': map<int, BTree>)
    requires b.BNode? && x !in w'
    requires b.left.BNode? ==> c in w' && w'[c] == b.left
    requires b.right.BNode? ==> s in w' && w'[s] == b.right
    ensures Sim(Grown(x, b, c, s), b, w')
  {
    assert Sim(Pend(c, b.left), b.left, w');
    assert Sim(Pend(s, b.right), b.right, w');
  }

  /** After a round the grown copy still copies the source. */
  lemma CopySimStep(sb: BTree, p: BTree, w: map<int, BTree>, x: int, b: BTree, ns: seq<Slot>, c: int, s: int)
    requires Sim(p, sb, w) && x in w && w[x] == b && b.BNode? && 0 <= x < |ns|
    requires forall y | y in BIds(p) :: 0 <= y < |ns|
    requires Spots(b, |ns|, c, s)
    ensures Sim(Replace(p, x, Grown(x, b, c, s)), sb, Regrow(w, x, b, c, s))
  {
    var w' := Regrow(w, x, b, c, s);
    RegrowKeeps(w, x, b, c, s, |ns|);
    var c' := if b.left.BNode? then c else |ns|;
    var s' := if b.right.BNode? then s else |ns| + 1;
    assert Regrow(w, x, b, c', s') == w';
    assert Grown(x, b, c', s') == Grown(x, b, c, s);
    RegrowNew(w, x, b, c', s');
    SimGrown(x, b, c', s', w');
    SimReplace(p, sb, w, x, Grown(x, b, c, s), w');
  }

  /** Every waiting copy is still a node of the grown copy. */
  lemma WaitStep(w: map<int, BTree>, x: int, b: BTree, c: int, s: int, p: BTree, p': BTree)
    requires (forall y | y in w :: y in BIds(p)) && b.BNode? && c != x && s != x
    requires b.left.BNode? && b.right.BNode? ==> c != s
    requires BIds(p') == BIds(p) + BIds(Pend(c, b.left)) + BIds(Pend(s, b.right))
    ensures forall y | y in Regrow(w, x, b, c, s) :: y in BIds(p')
  {
    RegrowNew(w, x, b, c, s);
  }

  /** Taking the fronts off the queues drops the front's waiting copy. */
  lemma QueuePop(ons: seq<Slot>, w: map<int, BTree>, oq: seq<int>, gq: seq<BTree>, tq: seq<int>, n: int)
    requires QueueInv(ons, w, oq, gq, tq, n) && |tq| > 0
    ensures QueueInv(ons, w - {tq[0]}, oq[1..], gq[1..], tq[1..], n)
  {
    var w' := w - {tq[0]};
    forall i | 0 <= i < |gq| - 1 ensures gq[1..][i].BNode? && BinLinked(gq[1..][i], ons) && oq[1..][i] == gq[1..][i].id {
      assert gq[1..][i] == gq[i + 1] && oq[1..][i] == oq[i + 1];
    }
    forall i | 0 <= i < |tq| - 1 ensures tq[1..][i] in w' && w'[tq[1..][i]] == gq[1..][i] && tq[1..][i] < n {
      assert tq[1..][i] == tq[i + 1] && gq[1..][i] == gq[i + 1];
      assert tq[0] < tq[i + 1];
    }
    forall y | y in w' ensures y in tq[1..] {
      var i :| 0 <= i < |tq| && tq[i] == y;
      assert tq[1..][i - 1] == y;
    }
  }

  /** Pushing a source subtree g and its waiting copy t, above every copy queued. */
  lemma QueuePush(ons: seq<Slot>, w: map<int, BTree>, oq: seq<int>, gq: seq<BTree>, tq: seq<int>, n: int, g: BTree, t: int)
    requires QueueInv(ons, w, oq, gq, tq, n) && g.BNode? && BinLinked(g, ons) && t >= n
    ensures QueueInv(ons, w[t := g], oq + [g.id], gq + [g], tq + [t], t + 1)
  {
    var w', oq', gq', tq' := w[t := g], oq + [g.id], gq + [g], tq + [t];
    forall i | 0 <= i < |gq'| ensures gq'[i].BNode? && BinLinked(gq'[i], ons) && oq'[i] == gq'[i].id {
      if i < |gq| {
        assert gq'[i] == gq[i] && oq'[i] == oq[i];
      }
    }
    forall i | 0 <= i < |tq'| ensures tq'[i] in w' && w'[tq'[i]] == gq'[i] && tq'[i] < t + 1 {
      if i < |tq| {
        assert tq'[i] == tq[i] && gq'[i] == gq[i];
      }
    }
    forall i, j | 0 <= i < j < |tq'| ensures tq'[i] < tq'[j] {
      assert tq'[i] == tq[i];
      if j < |tq| {
        assert tq'[j] == tq[j];
      }
    }
    forall y | y in w' ensures y in tq' {
      if y != t {
        var i :| 0 <= i < |tq| && tq[i] == y;
        assert tq'[i] == y;
      }
    }
  }

  /** After a round the queues again hold the subtrees still to copy and their waiting copies. */
  lemma CopyQueueStep(ons: seq<Slot>, w: map<int, BTree>, oq: seq<int>, gq: seq<BTree>, tq: seq<int>, n: nat,
                      b: BTree, c: int, s: int)
    requires QueueInv(ons, w, oq, gq, tq, n) && |tq| > 0 && gq[0] == b && b.BNode? && BinLinked(b, ons)
    requires Spots(b, n, c, s)
    ensures QueueInv(ons, Regrow(w, tq[0], b, c, s), Grow(oq[1..], BId(b.left), BId(b.right)),
                     gq[1..] + Present(b.left) + Present(b.right), Grow(tq[1..], c, s),
                     n + (if b.left.Leaf? then 0 else 1) + (if b.right.Leaf? then 0 else 1))
  {
    QueuePop(ons, w, oq, gq, tq, n);
    var w1, oq1, gq1, tq1, n1 := w - {tq[0]}, oq[1..], gq[1..], tq[1..], n;
    if b.left.BNode? {
      QueuePush(ons, w1, oq1, gq1, tq1, n1, b.left, c);
      w1, oq1, gq1, tq1, n1 := w1[c := b.left], oq1 + [b.left.id], gq1 + [b.left], tq1 + [c], c + 1;
    }
    if b.right.BNode? {
      QueuePush(ons, w1, oq1, gq1, tq1, n1, b.right, s);
      w1, oq1, gq1, tq1, n1 := w1[s := b.right], oq1 + [b.right.id], gq1 + [b.right], tq1 + [s], s + 1;
    }
    assert w1 == Regrow(w, tq[0], b, c, s);
    assert oq1 == Grow(oq[1..], BId(b.left), BId(b.right));
    assert gq1 == gq[1..] + Present(b.left) + Present(b.right);
    assert tq1 == Grow(tq[1..], c, s);
  }

  /** One round keeps the loop's state and copies one source node. */
  lemma CopyAdvance(ons: seq<Slot>, sb: BTree, p: BTree, w: map<int, BTree>,
                    oq: seq<int>, gq: seq<BTree>, tq: seq<int>, ns: seq<Slot>, ns': seq<Slot>, c: int, s: int)
    requires CopyInv(ons, sb, p, w, oq, gq, tq, ns) && |oq| > 0
    requires 0 <= tq[0] < |ns| && 0 <= oq[0] < |ons| && tq[0] in w && w[tq[0]] == gq[0] && tq[0] in BIds(p)
    requires FrontOk(ons, gq[0], ons[oq[0]].child, ons[oq[0]].sibling)
    requires Copied(ns, ns', tq[0], c, s, ons[oq[0]].child, ons[oq[0]].sibling, ons)
    ensures CopyInv(ons, sb, Replace(p, tq[0], Grown(tq[0], gq[0], c, s)), Regrow(w, tq[0], gq[0], c, s),
                    Grow(oq[1..], ons[oq[0]].child, ons[oq[0]].sibling),
                    gq[1..] + Present(gq[0].left) + Present(gq[0].right),
                    Grow(tq[1..], c, s), ns')
    ensures QueueSize(gq[1..] + Present(gq[0].left) + Present(gq[0].right)) < QueueSize(gq)
  {
    var b, x, oc, os := gq[0], tq[0], ons[oq[0]].child, ons[oq[0]].sibling;
    TreeStep(ons, sb, p, w, x, b, oc, os, ns, ns', c, s);
    CopiedSpots(ons, b, oc, os, ns, ns', x, c, s);
    CopyQueueStep(ons, w, oq, gq, tq, |ns|, b, c, s);
    CopySize(gq, b);
  }

  /** After a round the slots store the grown copy, which copies the source up to the new waiting copies. */
  lemma TreeStep(ons: seq<Slot>, sb: BTree, p: BTree, w: map<int, BTree>, x: int, b: BTree,
                 oc: int, os: int, ns: seq<Slot>, ns': seq<Slot>, c: int, s: int)
    requires TreeInv(sb, p, w, ns) && x in w && w[x] == b && x in BIds(p) && 0 <= x < |ns|
    requires FrontOk(ons, b, oc, os) && Copied(ns, ns', x, c, s, oc, os, ons)
    ensures TreeInv(sb, Replace(p, x, Grown(x, b, c, s)), Regrow(w, x, b, c, s), ns')
  {
    var p' := Replace(p, x, Grown(x, b, c, s));
    CopiedSpots(ons, b, oc, os, ns, ns', x, c, s);
    CopyStoredStep(ons, sb, p, w, x, b, oc, os, ns, ns', c, s);
    SimLeafAt(p, sb, w, x);
    CopyIdsStep(p, x, b, |ns|, c, s);
    CopySimStep(sb, p, w, x, b, ns, c, s);
    WaitStep(w, x, b, c, s, p, p');
    FreshRange(BIds(p), b, |ns|, c, s);
  }

  /** A round replaces the front subtree by its two parts. */
  lemma CopySize(gq: seq<BTree>, b: BTree)
    requires |gq| > 0 && gq[0] == b && b.BNode?
    ensures QueueSize(gq[1..] + Present(b.left) + Present(b.right)) < QueueSize(gq)
  {
    QueueSizeConcat(gq[1..] + Present(b.left), Present(b.right));
    QueueSizeConcat(gq[1..], Present(b.left));
  }

  /** Before the loop: the root copy waits for the whole source tree. */
  lemma CopyStart(ons: seq<Slot>, sb: BTree, ns: seq<Slot>)
    requires BinLinked(sb, ons) && sb.BNode? && ns == [Fresh(sb.elt)]
    ensures CopyInv(ons, sb, BNode(0, sb.elt, Leaf, Leaf), map[0 := sb], [sb.id], [sb], [0], ns)
  {
    var p := BNode(0, sb.elt, Leaf, Leaf);
    assert BIds(p) == multiset{0};
  }

  /** After the loop: nothing waits, so the copy has the source's shape. */
  lemma CopyEnd(ons: seq<Slot>, sb: BTree, p: BTree, w: map<int, BTree>,
                oq: seq<int>, gq: seq<BTree>, tq: seq<int>, ns: seq<Slot>)
    requires CopyInv(ons, sb, p, w, oq, gq, tq, ns) && |oq| == 0
    ensures BErase(p) == BErase(sb)
  {
    assert QueueInv(ons, w, oq, gq, tq, |ns|);
    assert forall y | y in w :: y in tq;
    assert |tq| == 0;
    assert w.Keys == {};
    assert w == map[];
    SimDone(p, sb);
  }

  // ---------------------------------------------------------------------
  // From the copied binary tree back to a heap

  /** The heap a copied binary tree stands for: its root over its left part. */
  function CopyTree(p: BTree): Tree
    requires p.BNode?
  {
    Node(p.id, p.elt, Kids(p.left))
  }

  /** A binary tree stored with its `previous` links stores its child list. */
  lemma {:induction false} StoredKids(b: BTree, p: int, ns: seq<Slot>)
    requires BinStored(b, p, ns)
    ensures KidsLinked(p, Kids(b), ns) && FirstId(Kids(b)) == BId(b)
    ensures BinLinked(b, ns)
  {
    if b.BNode? {
      StoredKids(b.left, b.id, ns);
      StoredKids(b.right, b.id, ns);
      var ks := Kids(b);
      var rs := Kids(b.right);
      assert ks[0] == Node(b.id, b.elt, Kids(b.left)) && ks[1..] == rs;
      assert Linked(ks[0], ns);
      forall i | 0 <= i < |ks| ensures KidLinked(p, ks, i, ns) && Linked(ks[i], ns) {
        if i > 0 {
          assert ks[i] == rs[i - 1];
          assert KidLinked(b.id, rs, i - 1, ns) && Linked(rs[i - 1], ns);
          if i > 1 { assert ks[i - 1] == rs[i - 2]; }
          if i + 1 < |ks| { assert ks[i + 1] == rs[i]; }
        } else if |ks| > 1 {
          assert ks[1] == rs[0];
        }
      }
    }
  }

  /** The handles and elements of the copy's heap are those of its binary tree without the right part. */
  lemma CopyTreeIds(p: BTree)
    requires p.BNode?
    ensures Nodes(CopyTree(p)) + BIds(p.right) == BIds(p)
    ensures Elements(CopyTree(p)) == multiset{p.elt} + BElements(p.left)
  {
    BinIds(Kids(p.left));
    BinKids(p.left);
  }

  /** The copy's heap has the shape and elements of the source heap t. */
  lemma CopyShape(p: BTree, sb: BTree, t: Tree)
    requires p.BNode? && sb.BNode? && BErase(p) == BErase(sb)
    requires sb.elt == t.elt && sb.left == Bin(t.kids)
    ensures Erase(CopyTree(p)) == Erase(t)
  {
    KidsErase(p.left);
    KidsErase(sb.left);
    KidsBin(t.kids);
  }

  /**
   * The binary tree copy_non_recursive walks from the root of a stored
   * heap: the root, its children on the left, and on the right whatever
   * the root's stale sibling reaches.
   */
  lemma SourceBin(root: int, o: Option<Tree>, ns: seq<Slot>, junk: BTree, c: nat) returns (sb: BTree)
    requires Inv(root, o, ns, junk, c) && o.Some?
    ensures BinLinked(sb, ns) && sb.BNode? && sb.id == root
    ensures sb.elt == o.value.elt && sb.left == Bin(o.value.kids)
  {
    var t := o.value;
    var s := ns[root].sibling;
    LinkedBin(t.id, t.kids, ns);
    BinIds(t.kids);
    var r: BTree;
    if s == -1 {
      r := Leaf;
    } else if s in ForestNodes(t.kids) {
      r := BinAt(Bin(t.kids), s);
      BinAtLinked(Bin(t.kids), s, ns);
    } else {
      r := junk;
    }
    sb := BNode(t.id, t.elt, Bin(t.kids), r);
  }

  /**
   * The copy is a heap: its root stores the copied tree, whose handles
   * are distinct, the copied stale region is its junk, and its size is
   * the source's; it has the source's shape and elements.
   */
  lemma CopyDone(root: int, o: Option<Tree>, ons: seq<Slot>, junk: BTree, c: nat, sb: BTree, p: BTree, ns: seq<Slot>)
    requires Inv(root, o, ons, junk, c) && o.Some?
    requires sb.BNode? && sb.elt == o.value.elt && sb.left == Bin(o.value.kids)
    requires p.BNode? && BinStored(p, -1, ns) && NoDup(BIds(p)) && BErase(p) == BErase(sb)
    ensures Inv(p.id, Some(CopyTree(p)), ns, p.right, c)
    ensures Erase(CopyTree(p)) == Erase(o.value)
  {
    var t := CopyTree(p);
    StoredKids(p.left, p.id, ns);
    StoredKids(p.right, p.id, ns);
    assert Linked(t, ns);
    CopyTreeIds(p);
    NoDupSplit(Nodes(t), BIds(p.right));
    CopyShape(p, sb, o.value);
    EraseSize(t);
    EraseSize(o.value);
  }

  /** Hence the copy holds the source's elements, and is ordered exactly when the source is. */
  lemma CopyFacts(t: Tree, t': Tree)
    requires Erase(t') == Erase(t)
    ensures Elements(t') == Elements(t)
    ensures HeapOrdered(t') <==> HeapOrdered(t)
  {
    EraseElements(t);
    EraseElements(t');
    EraseOrdered(t);
    EraseOrdered(t');
  }
}
