/**
 * What the tree built from a document looks like from the outside: which bullets end up in
 * it, that its ids are all different, and how its root is chosen. Everything is stated on the
 * declarative tree `Outline.OutlineTree`, which the parser is proved to return.
 */
module OutlineIds {
  import opened Wrappers
  import opened Trees
  import opened Outline
  import Decimal

  // ---------------------------------------------------------------------------------------
  // Ids handed out by makeNode

  /** Different counters give different ids. */
  lemma IdOfInjective(a: nat, b: nat)
    ensures IdOf(a) == IdOf(b) <==> a == b
  {
    if IdOf(a) == IdOf(b) {
      assert IdOf(a)[1..] == Decimal.Str(a + 1);
      assert IdOf(b)[1..] == Decimal.Str(b + 1);
      Decimal.StrInjective(a + 1, b + 1);
    }
  }

  /** A generated id is never the synthetic root's id. */
  lemma IdOfNotRoot(k: nat)
    ensures IdOf(k) != SyntheticRootId
  {
    assert IdOf(k)[0] == 'n';
  }

  /** The `n`-th node made is called `n${n}`, and no two nodes made share an id. */
  lemma GeneratedIdsDistinct(n: nat)
    ensures forall k :: 0 <= k < n ==> SpecIds(n)[k] == "n" + Decimal.Str(k + 1)
    ensures NoDup(SpecIds(n))
  {
    forall i, j | 0 <= i < j < n ensures SpecIds(n)[i] != SpecIds(n)[j] {
      IdOfInjective(i, j);
    }
  }

  // ---------------------------------------------------------------------------------------
  // Ancestry along the parent rule

  /** `a` is `k` itself or one of its ancestors. */
  predicate Below(es: seq<Entry>, k: nat, a: nat)
    requires k < |es|
    decreases k
  {
    k == a || match ParentOf(es, k) case Some(p) => Below(es, p, a) case None => false
  }

  /**
   * Bullet `k` reaches a depth-0 bullet by parent links. The others were pushed into a node
   * that itself hangs from nothing.
   */
  predicate Attached(es: seq<Entry>, k: nat)
    requires k < |es|
    decreases k
  {
    es[k].depth == 0 || match ParentOf(es, k) case Some(p) => Attached(es, p) case None => false
  }

  lemma {:induction false} BelowOrder(es: seq<Entry>, k: nat, a: nat)
    requires k < |es| && Below(es, k, a)
    ensures a <= k
    decreases k
  {
    if k != a {
      BelowOrder(es, ParentOf(es, k).value, a);
    }
  }

  lemma {:induction false} BelowTrans(es: seq<Entry>, j: nat, c: nat, k: nat)
    requires j < |es| && c < |es| && Below(es, j, c) && Below(es, c, k)
    ensures Below(es, j, k)
    decreases j
  {
    if j != c {
      BelowTrans(es, ParentOf(es, j).value, c, k);
    }
  }

  /** Two ancestors of one bullet are on one line: one is an ancestor of the other. */
  lemma {:induction false} BelowLinear(es: seq<Entry>, j: nat, a: nat, b: nat)
    requires j < |es| && Below(es, j, a) && Below(es, j, b)
    ensures a < |es| && b < |es| && (Below(es, a, b) || Below(es, b, a))
    decreases j
  {
    BelowOrder(es, j, a);
    BelowOrder(es, j, b);
    if j != a && j != b {
      BelowLinear(es, ParentOf(es, j).value, a, b);
    }
  }

  /** Attached in terms of ancestry: some depth-0 bullet is an ancestor. */
  lemma {:induction false} AttachedBelowRoot(es: seq<Entry>, k: nat)
    requires k < |es|
    ensures Attached(es, k) <==> exists r :: 0 <= r < |es| && es[r].depth == 0 && Below(es, k, r)
    decreases k
  {
    if es[k].depth == 0 {
      assert Below(es, k, k);
    } else if ParentOf(es, k).Some? {
      var p := ParentOf(es, k).value;
      AttachedBelowRoot(es, p);
      if exists r :: 0 <= r < |es| && es[r].depth == 0 && Below(es, k, r) {
        var r :| 0 <= r < |es| && es[r].depth == 0 && Below(es, k, r);
        assert Below(es, p, r);
      }
    }
  }

  /** A dropped bullet takes everything below it along. */
  lemma DroppedTakesDescendants(es: seq<Entry>, j: nat, k: nat)
    requires j < |es| && k < |es| && Below(es, j, k)
    requires es[k].depth > 0 && ParentOf(es, k).None?
    ensures !Attached(es, j)
  {
    if Attached(es, j) {
      AttachedBelowRoot(es, j);
      var r :| 0 <= r < |es| && es[r].depth == 0 && Below(es, j, r);
      BelowLinear(es, j, k, r);
    }
  }

  // ---------------------------------------------------------------------------------------
  // The subtrees the arena stands for

  /** The node object of bullet `k` once every bullet has been read. */
  function Sub(es: seq<Entry>, k: nat): (r: Node)
    requires k < |es|
    ensures r.id == IdOf(k) && r.name == es[k].name
  {
    Materialize(SpecIds(|es|), SpecNames(es, |es|), SpecKids(es, |es|), k)
  }

  /** The children of bullet `k`'s node are the nodes of its children, in document order. */
  lemma SubChildren(es: seq<Entry>, k: nat)
    requires k < |es|
    ensures |Sub(es, k).children| == |KidsUpTo(es, k, |es|)|
    ensures forall i :: 0 <= i < |Sub(es, k).children| ==>
      Sub(es, k).children[i] == Sub(es, KidsUpTo(es, k, |es|)[i])
  {
  }

  /** Every id in bullet `k`'s subtree is the id of `k` or of one of its descendants. */
  lemma {:induction false} SubIdsBelow(es: seq<Entry>, k: nat, x: string)
    requires k < |es| && x in Ids(Sub(es, k))
    ensures exists j :: k <= j < |es| && Below(es, j, k) && x == IdOf(j)
    decreases |es| - k
  {
    var t := Sub(es, k);
    if x != IdOf(k) {
      assert x in IdsOf(t.children);
      InIdsOf(t.children, x);
      var i :| 0 <= i < |t.children| && x in Ids(t.children[i]);
      SubChildren(es, k);
      var c := KidsUpTo(es, k, |es|)[i];
      KidsUpToSpec(es, k, |es|);
      assert c in KidsUpTo(es, k, |es|);
      SubIdsBelow(es, c, x);
      var j :| c <= j < |es| && Below(es, j, c) && x == IdOf(j);
      assert Below(es, c, k);
      BelowTrans(es, j, c, k);
    } else {
      assert Below(es, k, k);
    }
  }

  /** The subtree of an ancestor contains every id of the subtree of a descendant. */
  lemma {:induction false} SubIdsGrow(es: seq<Entry>, j: nat, k: nat, x: string)
    requires j < |es| && k < |es| && Below(es, j, k) && x in Ids(Sub(es, j))
    ensures x in Ids(Sub(es, k))
    decreases j
  {
    if j != k {
      var p := ParentOf(es, j).value;
      KidsUpToSpec(es, p, |es|);
      assert j in KidsUpTo(es, p, |es|);
      var i :| 0 <= i < |KidsUpTo(es, p, |es|)| && KidsUpTo(es, p, |es|)[i] == j;
      SubChildren(es, p);
      InIdsOf(Sub(es, p).children, x);
      assert x in IdsOf(Sub(es, p).children);
      SubIdsGrow(es, p, k, x);
    }
  }

  /** A bullet's id occurs in the subtree of `k` exactly when `k` is that bullet or an ancestor. */
  lemma SubHolds(es: seq<Entry>, j: nat, k: nat)
    requires j < |es| && k < |es|
    ensures IdOf(j) in Ids(Sub(es, k)) <==> Below(es, j, k)
  {
    if IdOf(j) in Ids(Sub(es, k)) {
      SubIdsBelow(es, k, IdOf(j));
      var j' :| k <= j' < |es| && Below(es, j', k) && IdOf(j) == IdOf(j');
      IdOfInjective(j, j');
    }
    if Below(es, j, k) {
      assert IdOf(j) in Ids(Sub(es, j));
      SubIdsGrow(es, j, k, IdOf(j));
    }
  }

  /** No id occurs twice in the subtree of a bullet. */
  lemma {:induction false} SubNoDup(es: seq<Entry>, k: nat)
    requires k < |es|
    ensures NoDup(Ids(Sub(es, k)))
    decreases |es| - k
  {
    var t := Sub(es, k);
    var ks := KidsUpTo(es, k, |es|);
    SubChildren(es, k);
    KidsUpToSpec(es, k, |es|);
    forall i | 0 <= i < |t.children| ensures NoDup(Ids(t.children[i])) {
      assert ks[i] in ks;
      SubNoDup(es, ks[i]);
    }
    forall i, j, x | 0 <= i < j < |t.children| && x in Ids(t.children[i])
      ensures x !in Ids(t.children[j])
    {
      assert ks[i] in ks && ks[j] in ks;
      SubIdsBelow(es, ks[i], x);
      var m :| ks[i] <= m < |es| && Below(es, m, ks[i]) && x == IdOf(m);
      if x in Ids(t.children[j]) {
        SubHolds(es, m, ks[j]);
        BelowLinear(es, m, ks[i], ks[j]);
        if Below(es, ks[i], ks[j]) {
          assert Below(es, k, ks[j]);
          BelowOrder(es, k, ks[j]);
        } else {
          assert Below(es, k, ks[i]);
          BelowOrder(es, k, ks[i]);
        }
        assert false;
      }
    }
    IdsOfNoDup(t.children);
    if IdOf(k) in IdsOf(t.children) {
      InIdsOf(t.children, IdOf(k));
      var i :| 0 <= i < |t.children| && IdOf(k) in Ids(t.children[i]);
      assert ks[i] in ks;
      SubHolds(es, k, ks[i]);
      BelowOrder(es, k, ks[i]);
      assert false;
    }
    NoDupConcat([t.id], IdsOf(t.children));
  }

  // ---------------------------------------------------------------------------------------
  // The tree returned for a document

  /** The subtrees under the synthetic root, one per depth-0 bullet in document order. */
  lemma TreeShape(md: string)
    ensures var es := DocEntries(md); var roots := RootsUpTo(es, |es|);
      && (|roots| == 1 ==> OutlineTree(md) == Sub(es, roots[0]))
      && (|roots| != 1 ==>
        && OutlineTree(md).id == SyntheticRootId && OutlineTree(md).name == SyntheticRootName
        && |OutlineTree(md).children| == |roots|
        && forall i :: 0 <= i < |roots| ==> OutlineTree(md).children[i] == Sub(es, roots[i]))
  {
  }

  /** Exactly one top-level bullet: that bullet's node is the tree. */
  lemma SingleRoot(md: string, r: nat)
    requires r < |DocEntries(md)| && DocEntries(md)[r].depth == 0
    requires forall k :: 0 <= k < |DocEntries(md)| && DocEntries(md)[k].depth == 0 ==> k == r
    ensures OutlineTree(md) == Sub(DocEntries(md), r)
  {
    var es := DocEntries(md);
    RootsUpToSpec(es, |es|);
    var roots := RootsUpTo(es, |es|);
    assert r in roots;
    forall i | 0 <= i < |roots| ensures roots[i] == r {
      assert roots[i] in roots;
    }
    assert roots[0] == r && roots[|roots| - 1] == r;
    TreeShape(md);
  }

  /** A document without a bullet gives the synthetic root with no children. */
  lemma NoBullets(md: string)
    requires DocEntries(md) == []
    ensures OutlineTree(md) == Node(SyntheticRootId, SyntheticRootName, [], None)
  {
  }

  /**
   * A bullet's node is in the tree exactly when the bullet is attached: dropped bullets and
   * everything below them are missing, every other bullet is present.
   */
  lemma TreeHoldsAttached(md: string, j: nat)
    requires j < |DocEntries(md)|
    ensures IdOf(j) in Ids(OutlineTree(md)) <==> Attached(DocEntries(md), j)
  {
    var es := DocEntries(md);
    var roots := RootsUpTo(es, |es|);
    TreeShape(md);
    if |roots| == 1 {
      OneRootHolds(es, j);
    } else {
      var t := OutlineTree(md);
      ForestHolds(es, j, t.children);
      IdOfNotRoot(j);
      assert Ids(t) == [t.id] + IdsOf(t.children);
    }
  }

  /** With one top-level bullet, the bullets attached are those below it. */
  lemma OneRootHolds(es: seq<Entry>, j: nat)
    requires j < |es| && |RootsUpTo(es, |es|)| == 1
    ensures IdOf(j) in Ids(Sub(es, RootsUpTo(es, |es|)[0])) <==> Attached(es, j)
  {
    var roots := RootsUpTo(es, |es|);
    RootsUpToSpec(es, |es|);
    AttachedBelowRoot(es, j);
    assert roots[0] in roots;
    SubHolds(es, j, roots[0]);
    if Attached(es, j) {
      var r :| 0 <= r < |es| && es[r].depth == 0 && Below(es, j, r);
      assert r in roots;
    }
  }

  /** Under the synthetic root, a bullet's id is in one of the top-level subtrees exactly when
      the bullet is attached. */
  lemma ForestHolds(es: seq<Entry>, j: nat, cs: seq<Node>)
    requires j < |es| && |cs| == |RootsUpTo(es, |es|)|
    requires forall i :: 0 <= i < |cs| ==> cs[i] == Sub(es, RootsUpTo(es, |es|)[i])
    ensures IdOf(j) in IdsOf(cs) <==> Attached(es, j)
  {
    var roots := RootsUpTo(es, |es|);
    RootsUpToSpec(es, |es|);
    AttachedBelowRoot(es, j);
    InIdsOf(cs, IdOf(j));
    if IdOf(j) in IdsOf(cs) {
      var i :| 0 <= i < |cs| && IdOf(j) in Ids(cs[i]);
      assert roots[i] in roots;
      SubHolds(es, j, roots[i]);
    }
    if Attached(es, j) {
      var r :| 0 <= r < |es| && es[r].depth == 0 && Below(es, j, r);
      ForestHasRoot(es, j, cs, r);
    }
  }

  /** A bullet below a top-level bullet is in that bullet's subtree. */
  lemma ForestHasRoot(es: seq<Entry>, j: nat, cs: seq<Node>, r: nat)
    requires j < |es| && |cs| == |RootsUpTo(es, |es|)|
    requires forall i :: 0 <= i < |cs| ==> cs[i] == Sub(es, RootsUpTo(es, |es|)[i])
    requires r < |es| && es[r].depth == 0 && Below(es, j, r)
    ensures exists i :: 0 <= i < |cs| && IdOf(j) in Ids(cs[i])
  {
    var roots := RootsUpTo(es, |es|);
    RootsUpToSpec(es, |es|);
    assert r in roots;
    var i :| 0 <= i < |roots| && roots[i] == r;
    SubHolds(es, j, r);
    assert IdOf(j) in Ids(cs[i]);
  }

  /** No id occurs twice in the tree of a document. */
  lemma TreeIdsDistinct(md: string)
    ensures NoDup(Ids(OutlineTree(md)))
  {
    var es := DocEntries(md);
    var roots := RootsUpTo(es, |es|);
    TreeShape(md);
    var t := OutlineTree(md);
    if |roots| == 1 {
      RootsUpToSpec(es, |es|);
      assert roots[0] in roots;
      SubNoDup(es, roots[0]);
    } else {
      ForestNoDup(es, t.children);
      ForestLacksRootId(es, t.children);
      assert Ids(t) == [t.id] + IdsOf(t.children);
      NoDupConcat([t.id], IdsOf(t.children));
    }
  }

  /** The top-level subtrees have no id twice, within one subtree or across two. */
  lemma ForestNoDup(es: seq<Entry>, cs: seq<Node>)
    requires |cs| == |RootsUpTo(es, |es|)|
    requires forall i :: 0 <= i < |cs| ==> cs[i] == Sub(es, RootsUpTo(es, |es|)[i])
    ensures NoDup(IdsOf(cs))
  {
    var roots := RootsUpTo(es, |es|);
    RootsUpToSpec(es, |es|);
    forall i | 0 <= i < |cs| ensures NoDup(Ids(cs[i])) {
      assert roots[i] in roots;
      SubNoDup(es, roots[i]);
    }
    forall i, j, x | 0 <= i < j < |cs| && x in Ids(cs[i])
      ensures x !in Ids(cs[j])
    {
      ForestDisjoint(es, cs, i, j, x);
    }
    IdsOfNoDup(cs);
  }

  lemma ForestDisjoint(es: seq<Entry>, cs: seq<Node>, i: nat, j: nat, x: string)
    requires |cs| == |RootsUpTo(es, |es|)|
    requires forall i :: 0 <= i < |cs| ==> cs[i] == Sub(es, RootsUpTo(es, |es|)[i])
    requires i < j < |cs| && x in Ids(cs[i])
    ensures x !in Ids(cs[j])
  {
    var roots := RootsUpTo(es, |es|);
    RootsUpToSpec(es, |es|);
    assert roots[i] in roots && roots[j] in roots;
    SubIdsBelow(es, roots[i], x);
    var m :| roots[i] <= m < |es| && Below(es, m, roots[i]) && x == IdOf(m);
    SubHolds(es, m, roots[j]);
    if Below(es, m, roots[j]) {
      BelowLinear(es, m, roots[i], roots[j]);
    }
  }

  /** No top-level subtree holds the synthetic root's id. */
  lemma ForestLacksRootId(es: seq<Entry>, cs: seq<Node>)
    requires |cs| == |RootsUpTo(es, |es|)|
    requires forall i :: 0 <= i < |cs| ==> cs[i] == Sub(es, RootsUpTo(es, |es|)[i])
    ensures SyntheticRootId !in IdsOf(cs)
  {
    var roots := RootsUpTo(es, |es|);
    RootsUpToSpec(es, |es|);
    InIdsOf(cs, SyntheticRootId);
    forall i | 0 <= i < |cs| ensures SyntheticRootId !in Ids(cs[i]) {
      assert roots[i] in roots;
      if SyntheticRootId in Ids(cs[i]) {
        SubIdsBelow(es, roots[i], SyntheticRootId);
        var m :| roots[i] <= m < |es| && SyntheticRootId == IdOf(m);
        IdOfNotRoot(m);
      }
    }
  }
}
