/**
 * The pairing-heap operations on abstract trees: meld, the multi-pass pairing
 * of pop, the cut-and-meld of a priority update, the breadth-first listing and
 * the linear rebuild. The class PairingPQ is proved to move its arena exactly
 * as these functions move trees; the lemmas here say why that is a priority
 * queue.
 */
module Pairing {
  import opened Trees

  /**
   * Meld of two non-empty trees (PairingPQ.h, meld): with comparator `<` the
   * root of `a` wins only when `b.elt < a.elt`; in every other case, ties
   * included, `b` wins. The loser becomes the winner's new leftmost child.
   */
  function Link(a: Tree, b: Tree): Tree
  {
    if b.elt < a.elt then Node(a.id, a.elt, [b] + a.kids) else Node(b.id, b.elt, [a] + b.kids)
  }

  /** Meld with null arguments: a missing tree gives back the other one. */
  function Meld(a: Option<Tree>, b: Option<Tree>): Option<Tree>
  {
    if a.None? then b else if b.None? then a else Some(Link(a.value, b.value))
  }

  /** The tree of a single, isolated node. */
  function Single(t: Tree): Tree
  {
    Node(t.id, t.elt, [])
  }

  /** The winner is the root that is not less than the other; the loser becomes its first child. */
  lemma LinkShape(a: Tree, b: Tree)
    ensures var r := Link(a, b);
      && (b.elt < a.elt ==> r.id == a.id && r.elt == a.elt && r.kids == [b] + a.kids)
      && (!(b.elt < a.elt) ==> r.id == b.id && r.elt == b.elt && r.kids == [a] + b.kids)
      && !(r.elt < a.elt) && !(r.elt < b.elt)
  {
  }

  lemma LinkNodes(a: Tree, b: Tree)
    ensures Nodes(Link(a, b)) == Nodes(a) + Nodes(b)
  {
    var r := Link(a, b);
    var w, l := if b.elt < a.elt then a else b, if b.elt < a.elt then b else a;
    assert r.kids[1..] == w.kids;
    assert ForestNodes(r.kids) == Nodes(l) + ForestNodes(w.kids);
  }

  lemma LinkElements(a: Tree, b: Tree)
    ensures Elements(Link(a, b)) == Elements(a) + Elements(b)
  {
    var r := Link(a, b);
    var w, l := if b.elt < a.elt then a else b, if b.elt < a.elt then b else a;
    assert r.kids[1..] == w.kids;
    assert ForestElements(r.kids) == Elements(l) + ForestElements(w.kids);
  }

  lemma LinkOrdered(a: Tree, b: Tree)
    requires HeapOrdered(a) && HeapOrdered(b)
    ensures HeapOrdered(Link(a, b))
  {
    var r := Link(a, b);
    var w, l := if b.elt < a.elt then a else b, if b.elt < a.elt then b else a;
    assert r.kids == [l] + w.kids;
    forall i | 0 <= i < |r.kids| ensures !(r.elt < r.kids[i].elt) && HeapOrdered(r.kids[i]) {
      if i > 0 { assert r.kids[i] == w.kids[i - 1]; }
    }
  }

  /**
   * Meld of two trees gives one tree holding the handles and elements of
   * both, heap-ordered when both were, whose root is no less extreme than
   * either root.
   */
  lemma LinkProps(a: Tree, b: Tree)
    ensures Nodes(Link(a, b)) == Nodes(a) + Nodes(b)
    ensures Elements(Link(a, b)) == Elements(a) + Elements(b)
    ensures HeapOrdered(a) && HeapOrdered(b) ==> HeapOrdered(Link(a, b))
    ensures !(Link(a, b).elt < a.elt) && !(Link(a, b).elt < b.elt)
  {
    LinkNodes(a, b);
    LinkElements(a, b);
    if HeapOrdered(a) && HeapOrdered(b) { LinkOrdered(a, b); }
  }

  /**
   * Meld as the source states it: a null argument gives back the other one;
   * two trees combine into one holding both, with the same elements and
   * handles, heap-ordered when both were.
   */
  lemma MeldProps(a: Option<Tree>, b: Option<Tree>)
    ensures a.None? ==> Meld(a, b) == b
    ensures b.None? ==> Meld(a, b) == a
    ensures a.Some? || b.Some? ==> Meld(a, b).Some?
    ensures OptNodes(Meld(a, b)) == OptNodes(a) + OptNodes(b)
    ensures OptElements(Meld(a, b)) == OptElements(a) + OptElements(b)
    ensures OptOrdered(a) && OptOrdered(b) ==> OptOrdered(Meld(a, b))
  {
    if a.Some? && b.Some? {
      LinkProps(a.value, b.value);
    }
  }

  // ---------------------------------------------------------------------
  // pop

  /**
   * The pairing loop of pop (PairingPQ.h:231-248): take the two trees at the
   * front of the FIFO queue, meld them and put the result at the back, until
   * one tree is left.
   */
  function MultiPass(qs: seq<Tree>): Tree
    requires |qs| >= 1
    decreases |qs|
  {
    if |qs| == 1 then qs[0] else MultiPass(qs[2..] + [Link(qs[0], qs[1])])
  }

  /** One round of the loop keeps the handles of the queue ... */
  lemma PairNodes(qs: seq<Tree>)
    requires |qs| >= 2
    ensures ForestNodes(qs[2..] + [Link(qs[0], qs[1])]) == ForestNodes(qs)
  {
    var l := Link(qs[0], qs[1]);
    LinkNodes(qs[0], qs[1]);
    ForestConcat(qs[2..], [l]);
    assert [l][1..] == [];
    assert ForestNodes([l]) == Nodes(l);
    assert qs[1..][1..] == qs[2..];
    assert ForestNodes(qs) == Nodes(qs[0]) + ForestNodes(qs[1..]);
    assert ForestNodes(qs[1..]) == Nodes(qs[1]) + ForestNodes(qs[2..]);
  }

  /** ... its elements ... */
  lemma PairElements(qs: seq<Tree>)
    requires |qs| >= 2
    ensures ForestElements(qs[2..] + [Link(qs[0], qs[1])]) == ForestElements(qs)
  {
    var l := Link(qs[0], qs[1]);
    LinkElements(qs[0], qs[1]);
    ForestElementsConcat(qs[2..], [l]);
    assert [l][1..] == [];
    assert ForestElements([l]) == Elements(l);
    assert qs[1..][1..] == qs[2..];
    assert ForestElements(qs) == Elements(qs[0]) + ForestElements(qs[1..]);
    assert ForestElements(qs[1..]) == Elements(qs[1]) + ForestElements(qs[2..]);
  }

  /** ... and the heap order of every tree in it. */
  lemma PairOrdered(qs: seq<Tree>)
    requires |qs| >= 2 && AllOrdered(qs)
    ensures AllOrdered(qs[2..] + [Link(qs[0], qs[1])])
  {
    var l := Link(qs[0], qs[1]);
    var qs' := qs[2..] + [l];
    assert HeapOrdered(qs[0]) && HeapOrdered(qs[1]);
    LinkOrdered(qs[0], qs[1]);
    forall i | 0 <= i < |qs'| ensures HeapOrdered(qs'[i]) {
      if i < |qs| - 2 { assert qs'[i] == qs[i + 2]; }
    }
  }

  lemma {:induction false} MultiPassProps(qs: seq<Tree>)
    requires |qs| >= 1
    ensures Nodes(MultiPass(qs)) == ForestNodes(qs)
    ensures Elements(MultiPass(qs)) == ForestElements(qs)
    ensures AllOrdered(qs) ==> HeapOrdered(MultiPass(qs))
    decreases |qs|
  {
    if |qs| == 1 {
      assert qs[1..] == [];
    } else {
      PairNodes(qs);
      PairElements(qs);
      if AllOrdered(qs) { PairOrdered(qs); }
      MultiPassProps(qs[2..] + [Link(qs[0], qs[1])]);
    }
  }

  /**
   * What pop leaves (PairingPQ.h:199-250): nothing for a root without
   * children, and otherwise the pairing of the root's children. The
   * only-child shortcut of the source is the one-tree case of MultiPass.
   */
  function PopTree(t: Tree): Option<Tree>
  {
    if |t.kids| == 0 then None else Some(MultiPass(t.kids))
  }

  lemma PopNodes(t: Tree)
    ensures OptNodes(PopTree(t)) == Nodes(t) - multiset{t.id}
    ensures |OptNodes(PopTree(t))| == |Nodes(t)| - 1
  {
    assert Nodes(t) == multiset{t.id} + ForestNodes(t.kids);
    assert Nodes(t) - multiset{t.id} == ForestNodes(t.kids);
    if |t.kids| > 0 {
      MultiPassProps(t.kids);
    }
  }

  lemma PopElements(t: Tree)
    ensures OptElements(PopTree(t)) == Elements(t) - multiset{t.elt}
  {
    assert Elements(t) - multiset{t.elt} == ForestElements(t.kids);
    if |t.kids| > 0 {
      MultiPassProps(t.kids);
    }
  }

  lemma PopOrdered(t: Tree)
    requires HeapOrdered(t)
    ensures OptOrdered(PopTree(t))
    ensures PopTree(t).Some? ==> !(t.elt < PopTree(t).value.elt)
  {
    if |t.kids| > 0 {
      var r := MultiPass(t.kids);
      MultiPassProps(t.kids);
      TopIsMax(t);
      assert r.elt in Elements(r);
      assert Elements(t) == multiset{t.elt} + ForestElements(t.kids);
      assert r.elt in Elements(t);
    }
  }

  /**
   * Pop removes exactly the root: its handle and one occurrence of its
   * element; heap order survives, and the new root is no more extreme than
   * the element removed.
   */
  lemma PopProps(t: Tree)
    ensures OptNodes(PopTree(t)) == Nodes(t) - multiset{t.id}
    ensures |OptNodes(PopTree(t))| == |Nodes(t)| - 1
    ensures OptElements(PopTree(t)) == Elements(t) - multiset{t.elt}
    ensures HeapOrdered(t) ==> OptOrdered(PopTree(t))
    ensures HeapOrdered(t) && PopTree(t).Some? ==> !(t.elt < PopTree(t).value.elt)
  {
    PopNodes(t);
    PopElements(t);
    if HeapOrdered(t) { PopOrdered(t); }
  }

  /** The elements seen by repeatedly reading top() and calling pop() until empty. */
  ghost function Drain(o: Option<Tree>): seq<int>
    decreases |OptNodes(o)|
  {
    if o.None? then []
    else
      PopNodes(o.value);
      [o.value.elt] + Drain(PopTree(o.value))
  }

  lemma {:induction false} DrainElements(o: Option<Tree>)
    ensures multiset(Drain(o)) == OptElements(o)
    decreases |OptNodes(o)|
  {
    if o.Some? {
      var t := o.value;
      PopNodes(t);
      PopElements(t);
      DrainElements(PopTree(t));
      assert Drain(o) == [t.elt] + Drain(PopTree(t));
      assert multiset(Drain(o)) == multiset{t.elt} + multiset(Drain(PopTree(t)));
      assert t.elt in Elements(t);
    }
  }

  /** Everything drained after the first pop is bounded by the element popped. */
  lemma DrainAfterPop(t: Tree)
    requires HeapOrdered(t)
    ensures forall j | 0 <= j < |Drain(PopTree(t))| :: !(t.elt < Drain(PopTree(t))[j])
  {
    var rest := Drain(PopTree(t));
    DrainElements(PopTree(t));
    PopElements(t);
    TopIsMax(t);
    forall j | 0 <= j < |rest| ensures !(t.elt < rest[j]) {
      assert rest[j] in multiset(rest);
      assert multiset(rest) <= Elements(t);
    }
  }

  /** Sorted extraction: the drained elements come from most to least extreme. */
  lemma {:induction false} DrainSorted(o: Option<Tree>)
    requires OptOrdered(o)
    ensures forall i, j | 0 <= i < j < |Drain(o)| :: !(Drain(o)[i] < Drain(o)[j])
    decreases |OptNodes(o)|
  {
    if o.Some? {
      var t := o.value;
      PopNodes(t);
      PopOrdered(t);
      DrainSorted(PopTree(t));
      DrainAfterPop(t);
      var d, rest := Drain(o), Drain(PopTree(t));
      assert d == [t.elt] + rest;
      forall i, j | 0 <= i < j < |d| ensures !(d[i] < d[j]) {
        if i > 0 { assert d[i] == rest[i - 1] && d[j] == rest[j - 1]; }
        else { assert d[j] == rest[j - 1]; }
      }
    }
  }
}
