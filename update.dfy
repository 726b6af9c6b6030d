/**
 * The priority update of a live non-root node (PairingPQ.h:316-339) on
 * abstract trees: unlink the node's subtree, give the node its new value,
 * and meld it back into what is left.
 */
module Update {
  import opened Trees
  import opened Pairing

  /** The subtree rooted at handle h inside a forest, if there is one. */
  function Find(ks: seq<Tree>, h: int): Option<Tree>
    decreases ks
  {
    if |ks| == 0 then None
    else if ks[0].id == h then Some(ks[0])
    else
      var f := Find(ks[0].kids, h);
      if f.Some? then f else Find(ks[1..], h)
  }

  /** A tree with the subtree rooted at h unlinked from its parent's child list. */
  function Cut(t: Tree, h: int): Tree
    decreases t
  {
    Node(t.id, t.elt, CutForest(t.kids, h))
  }

  function CutForest(ks: seq<Tree>, h: int): seq<Tree>
    decreases ks
  {
    if |ks| == 0 then []
    else if ks[0].id == h then ks[1..]
    else [Cut(ks[0], h)] + CutForest(ks[1..], h)
  }

  /**
   * What updateElt (PairingPQ.h:316-339) does to the tree: the node h
   * takes the new value, is unlinked with its own children, and is melded
   * back in with the remaining tree as the first argument of meld.
   */
  function Decrease(t: Tree, h: int, v: int): Tree
    requires Find(t.kids, h).Some?
  {
    var s := Find(t.kids, h).value;
    Link(Cut(t, h), Node(s.id, v, s.kids))
  }

  lemma {:induction false} CutAbsent(ks: seq<Tree>, h: int)
    requires h !in ForestNodes(ks)
    ensures CutForest(ks, h) == ks && Find(ks, h).None?
    decreases ks
  {
    if |ks| > 0 {
      CutAbsent(ks[0].kids, h);
      CutAbsent(ks[1..], h);
      assert ks == [ks[0]] + ks[1..];
    }
  }

  /** Unlinking keeps the roots' elements bounded by the same parent element. */
  lemma {:induction false} CutBounded(ks: seq<Tree>, h: int, b: int)
    requires forall i | 0 <= i < |ks| :: !(b < ks[i].elt)
    ensures forall i | 0 <= i < |CutForest(ks, h)| :: !(b < CutForest(ks, h)[i].elt)
    decreases ks
  {
    if |ks| > 0 && ks[0].id != h {
      CutBounded(ks[1..], h, b);
      var c := CutForest(ks, h);
      forall i | 0 <= i < |c| ensures !(b < c[i].elt) {
        if i > 0 { assert c[i] == CutForest(ks[1..], h)[i - 1]; }
      }
    }
  }

  /** Find returns the subtree of h and nothing else. */
  lemma {:induction false} FindSound(ks: seq<Tree>, h: int)
    ensures Find(ks, h).Some? ==> Find(ks, h).value.id == h
    ensures AllOrdered(ks) && Find(ks, h).Some? ==> HeapOrdered(Find(ks, h).value)
    decreases ks
  {
    if |ks| > 0 && ks[0].id != h {
      FindSound(ks[0].kids, h);
      FindSound(ks[1..], h);
      if AllOrdered(ks) {
        assert HeapOrdered(ks[0]);
        assert AllOrdered(ks[1..]) by {
          forall i | 0 <= i < |ks| - 1 ensures HeapOrdered(ks[1..][i]) { assert ks[1..][i] == ks[i + 1]; }
        }
      }
    }
  }

  /** Find finds every handle of the forest. */
  lemma {:induction false} FindComplete(ks: seq<Tree>, h: int)
    requires h in ForestNodes(ks)
    ensures Find(ks, h).Some?
    decreases ks
  {
    if ks[0].id != h {
      if h in Nodes(ks[0]) {
        FindComplete(ks[0].kids, h);
      } else {
        FindComplete(ks[1..], h);
      }
    }
  }

  /** Unlinking a subtree keeps heap order. */
  lemma {:induction false} CutOrdered(ks: seq<Tree>, h: int)
    requires AllOrdered(ks)
    ensures AllOrdered(CutForest(ks, h))
    decreases ks
  {
    if |ks| > 0 && ks[0].id != h {
      var k := ks[0];
      var c := CutForest(ks, h);
      assert HeapOrdered(k);
      assert AllOrdered(k.kids);
      CutOrdered(k.kids, h);
      CutBounded(k.kids, h, k.elt);
      assert HeapOrdered(Cut(k, h));
      assert AllOrdered(ks[1..]) by {
        forall i | 0 <= i < |ks| - 1 ensures HeapOrdered(ks[1..][i]) { assert ks[1..][i] == ks[i + 1]; }
      }
      CutOrdered(ks[1..], h);
      forall i | 0 <= i < |c| ensures HeapOrdered(c[i]) {
        if i > 0 { assert c[i] == CutForest(ks[1..], h)[i - 1]; }
      }
    } else if |ks| > 0 {
      forall i | 0 <= i < |ks| - 1 ensures HeapOrdered(ks[1..][i]) { assert ks[1..][i] == ks[i + 1]; }
    }
  }

  /**
   * Unlinking the subtree of a handle that occurs once: the cut forest and
   * the subtree together hold exactly the forest's handles ...
   */
  lemma {:induction false} CutNodes(ks: seq<Tree>, h: int)
    requires h in ForestNodes(ks) && NoDup(ForestNodes(ks))
    ensures Find(ks, h).Some?
    ensures ForestNodes(CutForest(ks, h)) + Nodes(Find(ks, h).value) == ForestNodes(ks)
    decreases ks
  {
    FindComplete(ks, h);
    var k := ks[0];
    var rest := ks[1..];
    NoDupSplit(Nodes(k), ForestNodes(rest));
    if k.id != h {
      var c := CutForest(ks, h);
      assert c[1..] == CutForest(rest, h);
      if h in Nodes(k) {
        NoDupSplit(multiset{k.id}, ForestNodes(k.kids));
        CutNodes(k.kids, h);
        CutAbsent(rest, h);
      } else {
        CutAbsent(k.kids, h);
        CutNodes(rest, h);
      }
    }
  }

  /** ... and exactly its elements. */
  lemma {:induction false} CutElements(ks: seq<Tree>, h: int)
    requires h in ForestNodes(ks) && NoDup(ForestNodes(ks))
    ensures Find(ks, h).Some?
    ensures ForestElements(CutForest(ks, h)) + Elements(Find(ks, h).value) == ForestElements(ks)
    decreases ks
  {
    FindComplete(ks, h);
    var k := ks[0];
    var rest := ks[1..];
    if k.id != h {
      NoDupHead(ks);
      assert ks == [k] + rest;
      if h in ForestNodes(k.kids) {
        CutElements(k.kids, h);
        CutInKids(k, rest, h);
      } else {
        CutElements(rest, h);
        CutInRest(k, rest, h);
      }
    }
  }

  /** What distinct handles say about the first tree of a forest and the rest. */
  lemma NoDupHead(ks: seq<Tree>)
    requires |ks| > 0 && NoDup(ForestNodes(ks))
    ensures NoDup(ForestNodes(ks[0].kids)) && NoDup(ForestNodes(ks[1..]))
    ensures ks[0].id !in ForestNodes(ks[0].kids)
    ensures forall x | x in ForestNodes(ks) :: x == ks[0].id || x in ForestNodes(ks[0].kids) || x in ForestNodes(ks[1..])
    ensures forall x | x in Nodes(ks[0]) :: x !in ForestNodes(ks[1..])
  {
    NoDupSplit(Nodes(ks[0]), ForestNodes(ks[1..]));
    NoDupSplit(multiset{ks[0].id}, ForestNodes(ks[0].kids));
  }

  lemma CutInKids(k: Tree, rest: seq<Tree>, h: int)
    requires k.id != h && h in ForestNodes(k.kids) && NoDup(ForestNodes(k.kids)) && h !in ForestNodes(rest)
    requires Find(k.kids, h).Some?
    requires ForestElements(CutForest(k.kids, h)) + Elements(Find(k.kids, h).value) == ForestElements(k.kids)
    ensures Find([k] + rest, h) == Find(k.kids, h)
    ensures ForestElements(CutForest([k] + rest, h)) + Elements(Find(k.kids, h).value) == ForestElements([k] + rest)
  {
    var ks := [k] + rest;
    assert ks[0] == k && ks[1..] == rest;
    CutAbsent(rest, h);
    var c := CutForest(ks, h);
    assert c == [Cut(k, h)] + rest;
    assert c[1..] == rest;
    var e := Elements(Find(k.kids, h).value);
    assert Elements(Cut(k, h)) == multiset{k.elt} + ForestElements(CutForest(k.kids, h));
    assert Elements(Cut(k, h)) + e == Elements(k);
    assert ForestElements(c) == Elements(Cut(k, h)) + ForestElements(rest);
    assert ForestElements(ks) == Elements(k) + ForestElements(rest);
  }

  lemma CutInRest(k: Tree, rest: seq<Tree>, h: int)
    requires k.id != h && h !in Nodes(k) && Find(rest, h).Some?
    requires ForestElements(CutForest(rest, h)) + Elements(Find(rest, h).value) == ForestElements(rest)
    ensures Find([k] + rest, h) == Find(rest, h)
    ensures ForestElements(CutForest([k] + rest, h)) + Elements(Find(rest, h).value) == ForestElements([k] + rest)
  {
    var ks := [k] + rest;
    assert ks[0] == k && ks[1..] == rest;
    assert h !in ForestNodes(k.kids);
    CutAbsent(k.kids, h);
    assert Cut(k, h) == k;
    var c := CutForest(ks, h);
    assert c == [k] + CutForest(rest, h);
    assert c[1..] == CutForest(rest, h);
  }

  /** Some child's subtree holds each handle of a forest. */
  lemma {:induction false} KidOf(ks: seq<Tree>, h: int) returns (j: int)
    requires h in ForestNodes(ks)
    ensures 0 <= j < |ks| && h in Nodes(ks[j])
    decreases ks
  {
    if h in Nodes(ks[0]) {
      j := 0;
    } else {
      var j' := KidOf(ks[1..], h);
      j := j' + 1;
      assert ks[1..][j'] == ks[j];
    }
  }

  /** Cutting the i-th tree of a forest with distinct handles, by its root. */
  lemma {:induction false} CutDirect(ks: seq<Tree>, i: int, h: int)
    requires 0 <= i < |ks| && ks[i].id == h && NoDup(ForestNodes(ks))
    ensures CutForest(ks, h) == ks[..i] + ks[i + 1..]
    ensures Find(ks, h) == Some(ks[i])
    decreases i
  {
    if i > 0 {
      CutPast(ks, i, h);
      CutDirect(ks[1..], i - 1, h);
      assert ks[1..][..i - 1] == ks[1..i] && ks[1..][i..] == ks[i + 1..];
      assert ks[..i] == [ks[0]] + ks[1..i];
    }
  }

  /** Cutting below the root of the j-th tree of a forest with distinct handles. */
  lemma {:induction false} CutDeep(ks: seq<Tree>, j: int, h: int)
    requires 0 <= j < |ks| && h in ForestNodes(ks[j].kids) && NoDup(ForestNodes(ks))
    ensures CutForest(ks, h) == ks[j := Cut(ks[j], h)]
    ensures Find(ks, h) == Find(ks[j].kids, h)
    decreases j
  {
    if j > 0 {
      assert h in Nodes(ks[j]);
      CutPast(ks, j, h);
      CutDeep(ks[1..], j - 1, h);
      assert [ks[0]] + ks[1..][j - 1 := Cut(ks[j], h)] == ks[j := Cut(ks[j], h)];
    } else {
      CutDeepHead(ks, h);
    }
  }

  /**
   * When h lies in the subtree of a later tree, the first tree is passed
   * over unchanged by both Cut and Find.
   */
  lemma CutPast(ks: seq<Tree>, i: int, h: int)
    requires 0 < i < |ks| && h in Nodes(ks[i]) && NoDup(ForestNodes(ks))
    ensures CutForest(ks, h) == [ks[0]] + CutForest(ks[1..], h)
    ensures Find(ks, h) == Find(ks[1..], h)
    ensures NoDup(ForestNodes(ks[1..])) && ks[1..][i - 1] == ks[i]
  {
    PastHead(ks, i, h);
    CutAbsent(ks[0].kids, h);
  }

  lemma PastHead(ks: seq<Tree>, i: int, h: int)
    requires 0 < i < |ks| && h in Nodes(ks[i]) && NoDup(ForestNodes(ks))
    ensures ks[0].id != h && h !in ForestNodes(ks[0].kids)
    ensures NoDup(ForestNodes(ks[1..])) && ks[1..][i - 1] == ks[i]
  {
    NoDupHead(ks);
    assert ks[1..][i - 1] == ks[i];
    NodesIn(ks[1..], i - 1);
    assert h !in Nodes(ks[0]);
  }

  lemma CutDeepHead(ks: seq<Tree>, h: int)
    requires 0 < |ks| && h in ForestNodes(ks[0].kids) && NoDup(ForestNodes(ks))
    ensures CutForest(ks, h) == ks[0 := Cut(ks[0], h)]
    ensures Find(ks, h) == Find(ks[0].kids, h)
  {
    NoDupSplit(Nodes(ks[0]), ForestNodes(ks[1..]));
    NoDupSplit(multiset{ks[0].id}, ForestNodes(ks[0].kids));
    assert ks[0].id != h;
    assert h in Nodes(ks[0]);
    CutAbsent(ks[1..], h);
    FindComplete(ks[0].kids, h);
    assert CutForest(ks, h) == [Cut(ks[0], h)] + ks[1..];
  }

  /** updateElt keeps the handles of the tree. */
  lemma DecreaseNodes(t: Tree, h: int, v: int)
    requires Distinct(t) && h in ForestNodes(t.kids)
    ensures Find(t.kids, h).Some?
    ensures Nodes(Decrease(t, h, v)) == Nodes(t)
  {
    DistinctKids(t);
    CutNodes(t.kids, h);
    var s := Find(t.kids, h).value;
    var c := Cut(t, h);
    var s' := Node(s.id, v, s.kids);
    LinkNodes(c, s');
    assert Nodes(s') == Nodes(s);
    assert Nodes(c) == multiset{t.id} + ForestNodes(CutForest(t.kids, h));
  }

  /** updateElt replaces the old element of h by the new one. */
  lemma DecreaseElements(t: Tree, h: int, v: int)
    requires Distinct(t) && h in ForestNodes(t.kids)
    ensures Find(t.kids, h).Some?
    ensures Elements(Decrease(t, h, v)) ==
            Elements(t) - multiset{Find(t.kids, h).value.elt} + multiset{v}
  {
    DistinctKids(t);
    CutElements(t.kids, h);
    var s := Find(t.kids, h).value;
    var c := Cut(t, h);
    var s' := Node(s.id, v, s.kids);
    LinkElements(c, s');
    assert Elements(s') == multiset{v} + ForestElements(s.kids);
    assert Elements(s) == multiset{s.elt} + ForestElements(s.kids);
    assert Elements(c) == multiset{t.elt} + ForestElements(CutForest(t.kids, h));
  }

  /** updateElt to a value no less extreme than the old one keeps heap order. */
  lemma DecreaseOrdered(t: Tree, h: int, v: int)
    requires HeapOrdered(t) && Find(t.kids, h).Some?
    requires !(v < Find(t.kids, h).value.elt)
    ensures HeapOrdered(Decrease(t, h, v))
  {
    var s := Find(t.kids, h).value;
    var c := Cut(t, h);
    var s' := Node(s.id, v, s.kids);
    assert AllOrdered(t.kids);
    FindSound(t.kids, h);
    CutOrdered(t.kids, h);
    CutBounded(t.kids, h, t.elt);
    assert HeapOrdered(c);
    assert HeapOrdered(s');
    LinkOrdered(c, s');
  }

  /**
   * updateElt on a live non-root node h with a value at least as extreme
   * as its old one: the handles stay the same, the old element of h is
   * replaced by the new one, and heap order is kept.
   */
  lemma DecreaseProps(t: Tree, h: int, v: int)
    requires Distinct(t) && h in ForestNodes(t.kids)
    ensures Find(t.kids, h).Some? && Find(t.kids, h).value.id == h
    ensures Nodes(Decrease(t, h, v)) == Nodes(t)
    ensures Elements(Decrease(t, h, v)) ==
            Elements(t) - multiset{Find(t.kids, h).value.elt} + multiset{v}
    ensures HeapOrdered(t) && !(v < Find(t.kids, h).value.elt) ==> HeapOrdered(Decrease(t, h, v))
  {
    FindComplete(t.kids, h);
    FindSound(t.kids, h);
    DecreaseNodes(t, h, v);
    DecreaseElements(t, h, v);
    if HeapOrdered(t) && !(v < Find(t.kids, h).value.elt) {
      DecreaseOrdered(t, h, v);
    }
  }
}
