/**
 * The genealogy tree of src/types.ts: a person with an id, a display name, an ordered list
 * of children and an optional `collapsed` flag; and the generic views of such a tree that
 * the other modules state their contracts in (preorder, paths from the root).
 */
module Trees {
  import opened Wrappers

  datatype Node = Node(id: string, name: string, children: seq<Node>, collapsed: Option<bool>)

  /** Every node, root first, children left to right (preorder). */
  function Nodes(t: Node): (r: seq<Node>)
    ensures |r| >= 1 && r[0] == t
  {
    [t] + NodesOf(t.children)
  }

  function NodesOf(cs: seq<Node>): seq<Node> {
    if cs == [] then [] else Nodes(cs[0]) + NodesOf(cs[1..])
  }

  /** The ids of the tree in preorder. */
  function Ids(t: Node): (r: seq<string>)
    ensures |r| >= 1 && r[0] == t.id
  {
    [t.id] + IdsOf(t.children)
  }

  function IdsOf(cs: seq<Node>): seq<string> {
    if cs == [] then [] else Ids(cs[0]) + IdsOf(cs[1..])
  }

  lemma {:induction false} IdsOfSnoc(cs: seq<Node>, c: Node)
    ensures IdsOf(cs + [c]) == IdsOf(cs) + Ids(c)
  {
    if cs == [] {
      assert [c][1..] == [];
    } else {
      assert (cs + [c])[1..] == cs[1..] + [c];
      IdsOfSnoc(cs[1..], c);
    }
  }

  /** An id occurs among a list of subtrees exactly when it occurs in one of them. */
  lemma {:induction false} InIdsOf(cs: seq<Node>, x: string)
    ensures x in IdsOf(cs) <==> exists i :: 0 <= i < |cs| && x in Ids(cs[i])
  {
    if cs != [] {
      InIdsOf(cs[1..], x);
      if x in IdsOf(cs[1..]) {
        var i :| 0 <= i < |cs[1..]| && x in Ids(cs[1..][i]);
        assert cs[1..][i] == cs[i + 1];
      }
      if exists i :: 0 <= i < |cs| && x in Ids(cs[i]) {
        var i :| 0 <= i < |cs| && x in Ids(cs[i]);
        if i > 0 {
          assert cs[1..][i - 1] == cs[i];
        }
      }
    }
  }

  /** A path from the root: the child index taken at each level. */
  predicate IsPath(t: Node, p: seq<nat>)
    decreases p
  {
    p == [] || (p[0] < |t.children| && IsPath(t.children[p[0]], p[1..]))
  }

  /** The subtree a path leads to. */
  function At(t: Node, p: seq<nat>): Node
    requires IsPath(t, p)
    decreases p
  {
    if p == [] then t else At(t.children[p[0]], p[1..])
  }

  /** The same tree with every `collapsed` flag removed: ids, names and child order only. */
  function Strip(t: Node): (r: Node)
    ensures r.id == t.id && r.name == t.name && r.collapsed == None
    ensures |r.children| == |t.children|
  {
    Node(t.id, t.name, seq(|t.children|, i requires 0 <= i < |t.children| => Strip(t.children[i])), None)
  }

  /** No value occurs twice. */
  predicate NoDup<T(==)>(s: seq<T>) {
    forall i, j :: 0 <= i < j < |s| ==> s[i] != s[j]
  }

  /** Concatenating two duplicate-free lists with nothing in common keeps them duplicate-free. */
  lemma NoDupConcat<T>(a: seq<T>, b: seq<T>)
    requires NoDup(a) && NoDup(b) && forall x :: x in a ==> x !in b
    ensures NoDup(a + b)
  {
    forall i, j | 0 <= i < j < |a + b| ensures (a + b)[i] != (a + b)[j] {
      if j < |a| {
        assert (a + b)[i] == a[i] && (a + b)[j] == a[j];
      } else if i >= |a| {
        assert (a + b)[i] == b[i - |a|] && (a + b)[j] == b[j - |a|];
      } else {
        assert (a + b)[i] == a[i] && (a + b)[j] == b[j - |a|];
        assert a[i] in a && b[j - |a|] in b;
      }
    }
  }

  /**
   * The preorder id list of a list of subtrees repeats no id when no subtree repeats one and
   * no two subtrees share one.
   */
  lemma {:induction false} IdsOfNoDup(cs: seq<Node>)
    requires forall i :: 0 <= i < |cs| ==> NoDup(Ids(cs[i]))
    requires forall i, j, x :: 0 <= i < j < |cs| && x in Ids(cs[i]) ==> x !in Ids(cs[j])
    ensures NoDup(IdsOf(cs))
  {
    if cs != [] {
      var tl := cs[1..];
      forall i, j, x | 0 <= i < j < |tl| && x in Ids(tl[i]) ensures x !in Ids(tl[j]) {
        assert tl[i] == cs[i + 1] && tl[j] == cs[j + 1];
      }
      IdsOfNoDup(tl);
      forall x | x in Ids(cs[0]) ensures x !in IdsOf(tl) {
        InIdsOf(tl, x);
      }
      NoDupConcat(Ids(cs[0]), IdsOf(tl));
    }
  }
}
