/**
 * The pairing heap of PairingPQ.h with comparator `<` on int (so the most
 * extreme element is the largest one). The nodes the source allocates on
 * the heap live in an arena, `nodes`; a node pointer is a slot index (its
 * handle) and the null pointer is -1. No slot is ever reused, so a handle
 * returned by AddNode names the same node for as long as it is live.
 */
module PairingHeap {
  import opened Trees
  import opened Pairing
  import opened Update
  import opened Traversal
  import opened Arena
  import opened Unlink
  import opened Binary
  import opened HeapState
  import opened Relisting
  import opened Relink
  import opened Copying

  class PairingPQ {
    /** The arena: slot h holds node h's element and its three links. */
    var nodes: seq<Slot>
    /** The root's handle, -1 when the heap is empty. */
    var root: int
    /** The number of live elements, as size() reports it. */
    var count: nat
    /** The multiway tree the links describe, None when the heap is empty. */
    ghost var shape: Option<Tree>
    /** The region the root's stale sibling may point into after a copy. */
    ghost var junk: BTree

    /** The links form the tree `shape`, whose handles are distinct; count is its size. */
    ghost predicate Valid()
      reads this
    {
      Inv(root, shape, nodes, junk, count)
    }

    /** The pairing-heap invariant: no child is more extreme than its parent. */
    ghost predicate Ordered()
      reads this
    {
      OptOrdered(shape)
    }

    /** The elements in the heap, with multiplicity. */
    ghost function Contents(): multiset<int>
      reads this
    {
      OptElements(shape)
    }

    /** The handles of the live nodes. */
    ghost function Handles(): multiset<int>
      reads this
    {
      OptNodes(shape)
    }

    /** An empty heap (PairingPQ.h:48-51). */
    constructor ()
      ensures Valid() && Ordered()
      ensures Contents() == multiset{} && count == 0 && nodes == []
    {
      nodes := [];
      root := -1;
      count := 0;
      shape := None;
      junk := Leaf;
    }

    /**
     * The range constructor (PairingPQ.h:57-65): the elements of xs, added
     * one by one with addNode, form an ordered heap of |xs| elements.
     */
    constructor FromSeq(xs: seq<int>)
      ensures Valid() && Ordered()
      ensures Contents() == multiset(xs) && count == |xs|
    {
      nodes := [];
      root := -1;
      count := 0;
      shape := None;
      junk := Leaf;
      new;
      AddAll(xs);
    }

    /** The loop of the range constructor: addNode on each element of xs in turn. */
    method AddAll(xs: seq<int>)
      requires Valid() && Ordered()
      modifies this
      ensures Valid() && Ordered()
      ensures Contents() == old(Contents()) + multiset(xs) && count == old(count) + |xs|
    {
      ghost var m0, n0 := Contents(), count;
      var i := 0;
      while i < |xs|
        invariant 0 <= i <= |xs|
        invariant Valid() && Ordered()
        invariant Contents() == m0 + multiset(xs[..i]) && count == n0 + i
      {
        Push(xs[i]);
        assert xs[..i + 1] == xs[..i] + [xs[i]];
        i := i + 1;
      }
      assert xs[..|xs|] == xs;
    }

    /**
     * The copy constructor (PairingPQ.h:70-79): a heap of other's size
     * whose tree has other's shape and elements, in slots of its own; it
     * is ordered exactly when other is.
     */
    constructor Copy(other: PairingPQ)
      requires other.Valid()
      ensures Valid()
      ensures shape.None? <==> other.shape.None?
      ensures shape.Some? && other.shape.Some? ==> Erase(shape.value) == Erase(other.shape.value)
      ensures Contents() == other.Contents() && count == other.count
      ensures Ordered() <==> other.Ordered()
    {
      nodes := [];
      root := -1;
      count := 0;
      shape := None;
      junk := Leaf;
      new;
      if other.root != -1 {
        ghost var o, oj, oc := other.shape, other.junk, other.count;
        var ons, oroot := other.nodes, other.root;
        ghost var sb := SourceBin(oroot, o, ons, oj, oc);
        ghost var p := CopyNonRecursive(ons, oroot, sb);
        count := other.Size();
        shape := Some(CopyTree(p));
        junk := p.right;
        CopyDone(oroot, o, ons, oj, oc, sb, p, nodes);
        CopyFacts(o.value, shape.value);
      }
    }

    /**
     * copy_non_recursive (PairingPQ.h:81-127) on the slots ons of the
     * heap being copied, from its root o: a breadth-first walk of the
     * binary tree sb that ons stores below o, which allocates a copy of
     * each node and links it to the copy of the node it hangs from. The
     * slots then store a binary tree p with the shape and elements of sb.
     */
    method CopyNonRecursive(ons: seq<Slot>, o: int, ghost sb: BTree) returns (ghost p: BTree)
      requires BinLinked(sb, ons) && sb.BNode? && o == sb.id && nodes == []
      modifies this`nodes, this`root
      ensures p.BNode? && root == p.id && root == 0 && BinStored(p, -1, nodes) && NoDup(BIds(p))
      ensures BErase(p) == BErase(sb)
    {
      root := |nodes|;
      nodes := nodes + [Fresh(ons[o].elt)];
      var thisQueue := [root];
      var otherQueue := [o];
      ghost var gq := [sb];
      ghost var w := map[root := sb];
      p := BNode(root, sb.elt, Leaf, Leaf);
      CopyStart(ons, sb, nodes);
      while |otherQueue| > 0
        invariant CopyInv(ons, sb, p, w, otherQueue, gq, thisQueue, nodes)
        invariant p.BNode? && p.id == root && root == 0
        decreases QueueSize(gq)
      {
        CopyFront(ons, sb, p, w, otherQueue, gq, thisQueue, nodes);
        ghost var oq0, tq0, ns := otherQueue, thisQueue, nodes;
        var otherFront := otherQueue[0];
        var thisFront := thisQueue[0];
        otherQueue := otherQueue[1..];
        thisQueue := thisQueue[1..];
        var otherChild := ons[otherFront].child;
        var otherSibling := ons[otherFront].sibling;
        var thisChild, thisSibling := Assemble(thisFront, otherChild, otherSibling, ons);
        otherQueue := Enqueue(otherQueue, otherChild, otherSibling);
        thisQueue := Enqueue(thisQueue, thisChild, thisSibling);
        CopyAdvance(ons, sb, p, w, oq0, gq, tq0, ns, nodes, thisChild, thisSibling);
        ReplaceId(p, thisFront, Grown(thisFront, gq[0], thisChild, thisSibling));
        p := Replace(p, thisFront, Grown(thisFront, gq[0], thisChild, thisSibling));
        w := Regrow(w, thisFront, gq[0], thisChild, thisSibling);
        gq := gq[1..] + Present(gq[0].left) + Present(gq[0].right);
      }
      CopyEnd(ons, sb, p, w, otherQueue, gq, thisQueue, nodes);
    }

    /**
     * One round's allocations and links (PairingPQ.h:97-110): copies of
     * the source child oc and sibling os, unless null, get fresh slots c
     * and s; x points to them and they point back to x.
     */
    method Assemble(x: int, oc: int, os: int, ons: seq<Slot>) returns (c: int, s: int)
      requires 0 <= x < |nodes| && (oc == -1 || 0 <= oc < |ons|) && (os == -1 || 0 <= os < |ons|)
      modifies this`nodes
      ensures Copied(old(nodes), nodes, x, c, s, oc, os, ons)
    {
      c := -1;
      if oc != -1 {
        c := |nodes|;
        nodes := nodes + [Fresh(ons[oc].elt)];
      }
      s := -1;
      if os != -1 {
        s := |nodes|;
        nodes := nodes + [Fresh(ons[os].elt)];
      }
      nodes := nodes[x := nodes[x].(child := c)];
      nodes := nodes[x := nodes[x].(sibling := s)];
      if c != -1 {
        nodes := nodes[c := nodes[c].(previous := x)];
      }
      if s != -1 {
        nodes := nodes[s := nodes[s].(previous := x)];
      }
    }

    /** Pushing a and then b on a queue, each unless null (PairingPQ.h:112-126). */
    method Enqueue(q0: seq<int>, a: int, b: int) returns (q: seq<int>)
      ensures q == Grow(q0, a, b)
    {
      q := q0;
      if a != -1 {
        q := q + [a];
      }
      if b != -1 {
        q := q + [b];
      }
    }

    /** size() (PairingPQ.h:297-299): the number of elements. */
    function Size(): (n: nat)
      reads this
      requires Valid()
      ensures n == |Contents()| && n == |Handles()|
    {
      OptSizeCount(shape);
      count
    }

    /** empty() (PairingPQ.h:303-305): whether there is no element. */
    function IsEmpty(): (b: bool)
      reads this
      requires Valid()
      ensures b <==> Contents() == multiset{}
      ensures b <==> count == 0
    {
      OptEmpty(shape);
      root == -1
    }

    /**
     * top() (PairingPQ.h:258-260): the root's element, which is in the heap
     * and, when the heap is ordered, not less than any element in it.
     */
    function Top(): (e: int)
      reads this
      requires Valid() && root != -1
      ensures e in Contents()
      ensures Ordered() ==> forall x | x in Contents() :: !(e < x)
    {
      RootIsTop(shape.value);
      nodes[root].elt
    }

    /**
     * meld (PairingPQ.h:369-388): a null argument gives back the other one;
     * otherwise the root that is not less than the other (b, on a tie)
     * takes the other as its leftmost child, and is returned. Only the
     * slots of the two trees change, no element moves, and the returned
     * root keeps its sibling link.
     */
    method Meld(a: int, b: int, ghost ta: Option<Tree>, ghost tb: Option<Tree>) returns (r: int)
      requires Stored(a, ta, nodes) && Stored(b, tb, nodes) && OptNodes(ta) !! OptNodes(tb)
      modifies this`nodes
      ensures Stored(r, Pairing.Meld(ta, tb), nodes)
      ensures Unchanged(old(nodes), nodes, OptNodes(ta) + OptNodes(tb))
      ensures EltsKept(old(nodes), nodes)
      ensures SiblingKept(old(nodes), nodes, r)
    {
      if a == -1 { return b; }
      if b == -1 { return a; }
      MeldSlots(a, b, ta, tb, nodes);
      ghost var ns := nodes;
      var w, l;
      if nodes[b].elt < nodes[a].elt {
        w, l := a, b;
      } else {
        w, l := b, a;
      }
      var leftMost := nodes[w].child;
      nodes := nodes[l := nodes[l].(sibling := leftMost)];
      if leftMost != -1 {
        nodes := nodes[leftMost := nodes[leftMost].(previous := l)];
      }
      nodes := nodes[l := nodes[l].(previous := w)];
      nodes := nodes[w := nodes[w].(child := l)];
      assert nodes == LinkSlots(ns, w, l);
      r := w;
    }

    /**
     * addNode (PairingPQ.h:349-361): a fresh node holding v joins the heap
     * and its handle is returned; every other node keeps its slot and its
     * element.
     */
    method AddNode(v: int) returns (h: int)
      requires Valid()
      modifies this
      ensures Valid()
      ensures h == old(|nodes|) && 0 <= h < |nodes| && nodes[h].elt == v
      ensures Handles() == old(Handles()) + multiset{h}
      ensures Contents() == old(Contents()) + multiset{v}
      ensures count == old(count) + 1
      ensures shape == Pairing.Meld(Some(Node(h, v, [])), old(shape))
      ensures old(Ordered()) ==> Ordered()
      ensures EltsKept(old(nodes), nodes)
    {
      h := |nodes|;
      ghost var ns, o, c := nodes, shape, count;
      nodes := nodes + [Fresh(v)];
      ghost var n1 := nodes;
      AddPre(root, o, ns, junk, c, v);
      if root == -1 {
        root := h;
        count := 1;
      } else {
        root := Meld(h, root, Some(Node(h, v, [])), o);
        count := count + 1;
      }
      AddPost(old(root), o, ns, junk, c, v, n1, nodes, root);
      shape := Pairing.Meld(Some(Node(h, v, [])), o);
    }

    /**
     * pop (PairingPQ.h:199-250): the root goes; an only child becomes the
     * root, and several children are paired up by the multi-pass loop.
     * The heap loses the root's handle and one occurrence of the top
     * element, and stays ordered; on an empty heap nothing happens.
     */
    method Pop()
      requires Valid()
      modifies this
      ensures Valid()
      ensures old(root) != -1 ==> shape == PopTree(old(shape).value)
      ensures old(root) != -1 ==> Contents() == old(Contents()) - multiset{old(Top())}
      ensures old(root) == -1 ==> count == 0
      ensures old(root) != -1 ==> count == old(count) - 1
      ensures old(Ordered()) ==> Ordered()
      ensures EltsKept(old(nodes), nodes)
    {
      if root == -1 {
        count := 0;
      } else {
        ghost var ns, o, c := nodes, shape, count;
        PopPre(root, o, ns, junk, c);
        var r;
        if nodes[root].child == -1 {
          r := -1;
          count := 0;
        } else {
          r := MeldChildren();
          count := count - 1;
        }
        PopDone(root, o, ns, junk, c, r, nodes);
        root := r;
        shape := PopTree(o.value);
      }
    }

    /**
     * The part of pop (PairingPQ.h:212-248) for a root with children: an
     * only child is the new root, and several children are queued and
     * paired up. The result stores what is left of the heap, with its
     * sibling link null or pointing among its nodes; only the slots below
     * the root change.
     */
    method MeldChildren() returns (r: int)
      requires Valid() && root != -1 && 0 <= root < |nodes| && nodes[root].child != -1
      modifies this`nodes
      ensures Stored(r, PopTree(shape.value), nodes) && r != -1
      ensures SibIn(nodes, r, ForestNodes(shape.value.kids))
      ensures EltsKept(old(nodes), nodes)
    {
      KidsQueue(root, shape, nodes, junk, count);
      var child := nodes[root].child;
      if nodes[child].sibling == -1 {
        OnlyChild(root, shape, nodes, junk, count);
        r := child;
      } else {
        var q := Children(child, root, shape.value.kids);
        r := PairUp(q, shape.value.kids, ForestNodes(shape.value.kids));
      }
    }

    /**
     * The first loop of pop (PairingPQ.h:224-228): from the leftmost
     * child c of p, follow the sibling links and queue every child.
     */
    method Children(c: int, ghost p: int, ghost ks: seq<Tree>) returns (q: seq<int>)
      requires KidsLinked(p, ks, nodes) && c == FirstId(ks)
      ensures q == Roots(ks)
    {
      q := [];
      var child := c;
      ghost var i := 0;
      if |ks| > 0 {
        assert KidLinked(p, ks, 0, nodes);
      }
      while child != -1
        invariant 0 <= i <= |ks| && |q| == i
        invariant forall j | 0 <= j < i :: q[j] == ks[j].id
        invariant child == if i < |ks| then ks[i].id else -1
        invariant i < |ks| ==> 0 <= child < |nodes|
        decreases |ks| - i
      {
        assert KidLinked(p, ks, i, nodes);
        q := q + [child];
        child := nodes[child].sibling;
        i := i + 1;
        if i < |ks| {
          assert KidLinked(p, ks, i, nodes);
        }
      }
    }

    /**
     * The pairing loop of pop (PairingPQ.h:231-248): meld the two trees
     * at the front of the queue and put the result at the back until one
     * tree is left, which is the multi-pass pairing of the queue. Only
     * the queue's slots change, and the sibling of the result points
     * among its own nodes.
     */
    method PairUp(q0: seq<int>, ghost gq0: seq<Tree>, ghost m: multiset<int>) returns (r: int)
      requires |q0| >= 1 && QueueOk(q0, gq0, nodes, m)
      modifies this`nodes
      ensures Stored(r, Some(MultiPass(gq0)), nodes) && SibIn(nodes, r, m)
      ensures Unchanged(old(nodes), nodes, ForestNodes(gq0))
      ensures EltsKept(old(nodes), nodes)
    {
      var q := q0;
      ghost var gq := gq0;
      while |q| > 1
        invariant |q| >= 1 && QueueOk(q, gq, nodes, m)
        invariant ForestNodes(gq) == ForestNodes(gq0) && MultiPass(gq) == MultiPass(gq0)
        invariant Unchanged(old(nodes), nodes, ForestNodes(gq0)) && EltsKept(old(nodes), nodes)
        decreases |q|
      {
        ghost var ns, qq := nodes, q;
        PairPre(q, gq, nodes, m);
        var first := q[0];
        q := q[1..];
        var second := q[0];
        q := q[1..];
        var melded := Meld(first, second, Some(gq[0]), Some(gq[1]));
        PairPost(qq, gq, ns, m, nodes, melded);
        q := q + [melded];
        UnchangedTrans(old(nodes), ns, nodes, ForestNodes(gq0), OptNodes(Some(gq[0])) + OptNodes(Some(gq[1])));
        EltsTrans(old(nodes), ns, nodes);
        gq := gq[2..] + [Link(gq[0], gq[1])];
      }
      PairEnd(q, gq, nodes, m);
      r := q[0];
    }

    /** push (PairingPQ.h:188-190): addNode without the handle. */
    method Push(v: int)
      requires Valid()
      modifies this
      ensures Valid()
      ensures Contents() == old(Contents()) + multiset{v}
      ensures count == old(count) + 1
      ensures old(Ordered()) ==> Ordered()
    {
      var _ := AddNode(v);
    }

    /**
     * to_queue (PairingPQ.h:264-293): every live handle, in breadth-first
     * order of the tree (each node, then its children left to right, level
     * by level), each exactly once.
     */
    method ToQueue() returns (q: seq<int>)
      requires Valid()
      ensures q == Roots(Listing(shape))
      ensures multiset(q) == Handles()
    {
      q := [];
      if root != -1 {
        ListStart(root, shape, nodes);
        q := ListFrom([root], [shape.value]);
      }
      ListingProps(shape);
    }

    /**
     * The loop of to_queue (PairingPQ.h:271-289): take the head of the
     * queue of trees gq0, list it and queue its children, until the queue
     * is empty; the output is the breadth-first listing of gq0.
     */
    method ListFrom(cq0: seq<int>, ghost gq0: seq<Tree>) returns (q: seq<int>)
      requires AllLinked(gq0, nodes) && cq0 == Roots(gq0)
      ensures q == Roots(Bfs(gq0))
    {
      q := [];
      var childQueue := cq0;
      ghost var gq := gq0;
      while |childQueue| > 0
        invariant AllLinked(gq, nodes) && childQueue == Roots(gq)
        invariant q + Roots(Bfs(gq)) == Roots(Bfs(gq0))
        decreases ForestSize(gq)
      {
        var head := childQueue[0];
        ListStep(gq, nodes);
        childQueue := QueueKids(nodes[head].child, childQueue, head, gq[0].kids);
        ListAdvance(q, gq, nodes, Roots(Bfs(gq0)), childQueue);
        q := q + [head];
        childQueue := childQueue[1..];
        gq := gq[1..] + gq[0].kids;
      }
    }

    /**
     * The inner loop of to_queue (PairingPQ.h:274-285): from the leftmost
     * child c of p, follow the sibling links and add every child to the
     * back of the queue.
     */
    method QueueKids(c: int, cq0: seq<int>, ghost p: int, ghost ks: seq<Tree>) returns (cq: seq<int>)
      requires KidsLinked(p, ks, nodes) && c == FirstId(ks)
      ensures cq == cq0 + Roots(ks)
    {
      cq := cq0;
      var node := c;
      ghost var i := 0;
      if |ks| > 0 {
        assert KidLinked(p, ks, 0, nodes);
      }
      if node != -1 {
        cq := cq + [node];
        i := 1;
      }
      while node != -1 && nodes[node].sibling != -1
        invariant 0 <= i <= |ks| && (i == 0 <==> |ks| == 0) && |cq| == |cq0| + i
        invariant forall j | 0 <= j < |cq0| :: cq[j] == cq0[j]
        invariant forall j | 0 <= j < i :: cq[|cq0| + j] == ks[j].id
        invariant node == if i == 0 then -1 else ks[i - 1].id
        invariant i > 0 ==> KidLinked(p, ks, i - 1, nodes)
        invariant i < |ks| ==> KidLinked(p, ks, i, nodes)
        decreases |ks| - i
      {
        node := nodes[node].sibling;
        cq := cq + [node];
        i := i + 1;
        if i < |ks| {
          assert KidLinked(p, ks, i, nodes);
        }
      }
      assert cq == cq0 + Roots(ks);
    }

    /**
     * updatePriorities (PairingPQ.h:170-181): list every node, clear its
     * links and meld it, alone, into a heap rebuilt from nothing. No node
     * is created or destroyed and no element changes; the heap keeps its
     * handles, elements and size, and ends up ordered whatever order it
     * was in.
     */
    method UpdatePriorities()
      requires Valid()
      modifies this
      ensures Valid() && Ordered()
      ensures shape == Rebuild(None, Listing(old(shape)))
      ensures Handles() == old(Handles()) && Contents() == old(Contents()) && count == old(count)
      ensures |nodes| == old(|nodes|) && EltsKept(old(nodes), nodes)
    {
      var q := ToQueue();
      var r := MeldAll(q);
      root := r;
      shape := Rebuild(None, Listing(shape));
      junk := Leaf;
    }

    /**
     * The loop of updatePriorities (PairingPQ.h:172-179): take the listed
     * nodes in order, clear each one's links and meld it into the running
     * root. The result stores the listed nodes melded one by one into
     * nothing, which has the heap's handles, elements and size, is ordered
     * and has a null sibling; no slot is added and no element moves.
     */
    method MeldAll(q0: seq<int>) returns (r: int)
      requires Valid() && q0 == Roots(Listing(shape))
      modifies this`nodes
      ensures Rebuilt(shape, count, r, nodes, old(nodes))
    {
      ghost var vs, ns0 := Listing(shape), nodes;
      ListedStart(root, shape, nodes);
      RebuildStart(shape, nodes);
      var q := q0;
      r := -1;
      ghost var acc: Option<Tree> := None;
      ghost var k := 0;
      while |q| > 0
        invariant RebuildInv(r, acc, nodes, vs, k, ns0) && q == Roots(vs)[k..]
        decreases |q|
      {
        RebuildFront(q, vs, k);
        var front := q[0];
        RebuildPre(r, acc, nodes, vs, k, ns0);
        ghost var ns1, r0 := nodes, r;
        ClearLinks(front);
        ghost var ns2 := nodes;
        r := Meld(r, front, acc, Some(Single(vs[k])));
        RebuildPost(r0, acc, ns1, vs, k, ns0, ns2, r, nodes);
        acc := Pairing.Meld(acc, Some(Single(vs[k])));
        k := k + 1;
        q := q[1..];
      }
      RebuildEnd(r, acc, nodes, vs, k, ns0);
      RebuildDone(root, shape, ns0, junk, count, r, acc, nodes);
    }

    /** The writes of PairingPQ.h:174-176: node x loses its three links. */
    method ClearLinks(x: int)
      requires 0 <= x < |nodes|
      modifies this`nodes
      ensures nodes == old(nodes)[x := old(nodes)[x].(sibling := -1, child := -1, previous := -1)]
    {
      nodes := nodes[x := nodes[x].(sibling := -1)];
      nodes := nodes[x := nodes[x].(child := -1)];
      nodes := nodes[x := nodes[x].(previous := -1)];
    }

    /**
     * updateElt (PairingPQ.h:316-339) on the live non-root node h: h takes
     * the new element v, is unlinked with its subtree, and is melded back
     * in. The handles and the size stay the same, the old element of h is
     * replaced by v, no slot outside the heap changes and no other element
     * moves; the heap stays ordered when v is not less than the old element.
     */
    method UpdateElt(h: int, v: int)
      requires Valid() && root != -1 && h in ForestNodes(shape.value.kids)
      modifies this`nodes, this`root, this`shape
      ensures Valid()
      ensures Find(old(shape).value.kids, h).Some? && shape == Some(Decrease(old(shape).value, h, v))
      ensures Handles() == old(Handles()) && count == old(count)
      ensures 0 <= h < old(|nodes|) && Contents() == old(Contents()) - multiset{old(nodes[h].elt)} + multiset{v}
      ensures 0 <= h < old(|nodes|) && old(Ordered()) && !(v < old(nodes[h].elt)) ==> Ordered()
      ensures Unchanged(old(nodes), nodes, old(Handles()))
      ensures 0 <= h < |nodes| && nodes[h].elt == v
      ensures forall x | 0 <= x < |nodes| && x != h :: nodes[x].elt == old(nodes[x].elt)
    {
      ghost var t := shape.value;
      UpdateLinks(h, v, t);
      UpdateFacts(t, h, v, junk, count, old(nodes), root, nodes);
      shape := Some(Decrease(t, h, v));
    }

    /** The writes and the meld of updateElt (PairingPQ.h:317-338) on the stored tree t. */
    method UpdateLinks(h: int, v: int, ghost t: Tree)
      requires Inv(root, Some(t), nodes, junk, count) && h in ForestNodes(t.kids)
      modifies this`nodes, this`root
      ensures UpdateDone(t, h, v, junk, count, old(nodes), root, nodes)
    {
      ghost var ns := nodes;
      Detach(h, v, t);
      UpdateMid(root, Some(t), ns, junk, count, h, v);
      ghost var s := Find(t.kids, h).value;
      root := Meld(root, h, Some(Cut(t, h)), Some(Node(h, v, s.kids)));
      UpdatePost(old(root), Some(t), ns, junk, count, h, v, root, nodes);
    }

    /**
     * The writes of updateElt before its meld (PairingPQ.h:317-337): h
     * takes the new element, is unlinked, and loses its sibling and
     * previous links.
     */
    method Detach(h: int, v: int, ghost t: Tree)
      requires Inv(root, Some(t), nodes, junk, count) && h in ForestNodes(t.kids)
      modifies this`nodes
      ensures Neighbours(t, h, old(nodes)) && nodes == Relinked(old(nodes), h, v)
    {
      ghost var ns := nodes;
      UpdatePre(root, Some(t), nodes, junk, count, h);
      nodes := nodes[h := nodes[h].(elt := v)];
      UnlinkElt(ns, h, v);
      UnlinkNode(h);
      nodes := nodes[h := nodes[h].(sibling := -1)];
      nodes := nodes[h := nodes[h].(previous := -1)];
    }

    /**
     * The unlinking writes of updateElt (PairingPQ.h:319-334): the link of
     * h's previous node that pointed at h, its child link when h is the
     * leftmost child and its sibling link otherwise, takes h's sibling,
     * and that sibling, if any, points back to the previous node.
     */
    method UnlinkNode(h: int)
      requires UnlinkOk(nodes, h)
      modifies this`nodes
      ensures nodes == UnlinkSlots(old(nodes), h)
    {
      var previous := nodes[h].previous;
      var sibling := nodes[h].sibling;
      if nodes[previous].child == h {
        if previous != -1 {
          nodes := nodes[previous := nodes[previous].(child := sibling)];
        }
        if sibling != -1 {
          nodes := nodes[sibling := nodes[sibling].(previous := previous)];
        }
      } else {
        if previous != -1 {
          nodes := nodes[previous := nodes[previous].(sibling := sibling)];
        }
        if sibling != -1 {
          nodes := nodes[sibling := nodes[sibling].(previous := previous)];
        }
      }
    }
  }
}
