/**
 * The view state of src/App.tsx: the loaded tree, the set of collapsed ids, and the
 * `initialDepth` / `viewKey` pair that collapse-all and expand-all drive; with the tree
 * helpers the component uses.
 */
module App {
  import opened Wrappers
  import opened Trees

  // ---------------------------------------------------------------------------------------
  // setAllCollapsed

  /** Every node of the tree, with `collapsed` set to `value`. */
  function SetAllCollapsed(t: Node, value: bool): (r: Node)
    ensures r.id == t.id && r.name == t.name && r.collapsed == Some(value)
    ensures |r.children| == |t.children|
  {
    Node(t.id, t.name,
         seq(|t.children|, i requires 0 <= i < |t.children| => SetAllCollapsed(t.children[i], value)),
         Some(value))
  }

  /** Every node of the result carries the flag, and nothing else changes: same ids, names
      and child order. */
  lemma {:induction false} SetAllCollapsedSpec(t: Node, value: bool)
    ensures Strip(SetAllCollapsed(t, value)) == Strip(t)
    ensures forall i :: 0 <= i < |Nodes(SetAllCollapsed(t, value))| ==>
      Nodes(SetAllCollapsed(t, value))[i].collapsed == Some(value)
    decreases t, 1
  {
    var r := SetAllCollapsed(t, value);
    forall i | 0 <= i < |t.children| ensures Strip(r.children[i]) == Strip(t.children[i]) {
      SetAllCollapsedSpec(t.children[i], value);
    }
    assert Strip(r).children == Strip(t).children;
    SetAllCollapsedOf(t.children, value, r.children);
  }

  lemma {:induction false} SetAllCollapsedOf(cs: seq<Node>, value: bool, rs: seq<Node>)
    requires |rs| == |cs| && forall i :: 0 <= i < |cs| ==> rs[i] == SetAllCollapsed(cs[i], value)
    ensures forall i :: 0 <= i < |NodesOf(rs)| ==> NodesOf(rs)[i].collapsed == Some(value)
    decreases cs, 0
  {
    if cs != [] {
      SetAllCollapsedSpec(cs[0], value);
      SetAllCollapsedOf(cs[1..], value, rs[1..]);
      assert NodesOf(rs) == Nodes(rs[0]) + NodesOf(rs[1..]);
    }
  }

  // ---------------------------------------------------------------------------------------
  // collectIds

  /** `collectIds(node, acc)`: pushes the node's id, then recurses into each child in turn. */
  method CollectIds(t: Node, acc: seq<string>) returns (r: seq<string>)
    ensures r == acc + Ids(t)
    decreases t
  {
    r := acc + [t.id];
    for i := 0 to |t.children|
      invariant r == acc + [t.id] + IdsOf(t.children[..i])
    {
      assert t.children[..i + 1] == t.children[..i] + [t.children[i]];
      IdsOfSnoc(t.children[..i], t.children[i]);
      r := CollectIds(t.children[i], r);
    }
    assert t.children[..|t.children|] == t.children;
  }

  // ---------------------------------------------------------------------------------------
  // toggleId

  /** The collapsed set after `toggleId(id)`. */
  function Toggled(s: set<string>, id: string): (r: set<string>)
    ensures id in r <==> id !in s
    ensures forall x :: x != id ==> (x in r <==> x in s)
  {
    if id in s then s - {id} else s + {id}
  }

  /** Toggling the same id twice gives back the set. */
  lemma ToggleTwice(s: set<string>, id: string)
    ensures Toggled(Toggled(s, id), id) == s
  {
  }

  // ---------------------------------------------------------------------------------------
  // applyCollapsed

  /** The tree handed to the view: collapsed nodes lose their children. */
  function ApplyCollapsed(t: Node, c: set<string>): (r: Node)
    ensures r.id == t.id && r.name == t.name && r.collapsed == t.collapsed
    ensures t.id in c ==> r.children == []
    ensures t.id !in c ==> |r.children| == |t.children|
  {
    Node(t.id, t.name,
         if t.id in c then []
         else seq(|t.children|, i requires 0 <= i < |t.children| => ApplyCollapsed(t.children[i], c)),
         t.collapsed)
  }

  /** A path all of whose proper ancestors (the nodes it passes through) are not collapsed. */
  predicate Visible(t: Node, c: set<string>, p: seq<nat>)
    decreases p
  {
    p == [] || (t.id !in c && p[0] < |t.children| && Visible(t.children[p[0]], c, p[1..]))
  }

  /**
   * The view shows exactly the nodes with no collapsed proper ancestor, and each of them as
   * `applyCollapsed` of the original node.
   */
  lemma {:induction false} ApplyCollapsedShows(t: Node, c: set<string>, p: seq<nat>)
    ensures IsPath(ApplyCollapsed(t, c), p) <==> Visible(t, c, p)
    ensures Visible(t, c, p) ==> IsPath(t, p) && At(ApplyCollapsed(t, c), p) == ApplyCollapsed(At(t, p), c)
    decreases p
  {
    if p != [] && t.id !in c && p[0] < |t.children| {
      ApplyCollapsedShows(t.children[p[0]], c, p[1..]);
    }
  }

  /** With nothing collapsed the view is the tree itself. */
  lemma {:induction false} ApplyNothing(t: Node)
    ensures ApplyCollapsed(t, {}) == t
    decreases t
  {
    forall i | 0 <= i < |t.children| ensures ApplyCollapsed(t.children[i], {}) == t.children[i] {
      ApplyNothing(t.children[i]);
    }
    assert ApplyCollapsed(t, {}).children == t.children;
  }

  // ---------------------------------------------------------------------------------------
  // The component's state

  /** The state hooks of `App`: the loaded tree, the collapsed ids, `viewKey`, `initialDepth`. */
  class AppState {
    var tree: Option<Node>
    var collapsed: set<string>
    var viewKey: int
    var initialDepth: int

    /** The initial `useState` values. */
    constructor()
      ensures tree == None && collapsed == {} && viewKey == 1 && initialDepth == 99
    {
      tree := None;
      collapsed := {};
      viewKey := 1;
      initialDepth := 99;
    }

    /** `setTree(obj)` once the JSON has arrived. */
    method Load(t: Node)
      modifies this
      ensures tree == Some(t)
      ensures collapsed == old(collapsed) && viewKey == old(viewKey) && initialDepth == old(initialDepth)
    {
      tree := Some(t);
    }

    /** The toolbar buttons are disabled before the tree is loaded. */
    function Disabled(): (r: bool)
      reads this
      ensures r <==> tree == None
    {
      !tree.Some?
    }

    /** `onCollapseAll`: nothing without a tree; otherwise depth 0 and a new `viewKey`. */
    method OnCollapseAll()
      modifies this
      ensures tree == old(tree) && collapsed == old(collapsed)
      ensures old(Disabled()) ==> viewKey == old(viewKey) && initialDepth == old(initialDepth)
      ensures !old(Disabled()) ==> viewKey == old(viewKey) + 1 && initialDepth == 0
    {
      if tree == None {
        return;
      }
      initialDepth := 0;
      viewKey := viewKey + 1;
    }

    /** `onExpandAll`: nothing without a tree; otherwise depth 99 and a new `viewKey`. */
    method OnExpandAll()
      modifies this
      ensures tree == old(tree) && collapsed == old(collapsed)
      ensures old(Disabled()) ==> viewKey == old(viewKey) && initialDepth == old(initialDepth)
      ensures !old(Disabled()) ==> viewKey == old(viewKey) + 1 && initialDepth == 99
    {
      if tree == None {
        return;
      }
      initialDepth := 99;
      viewKey := viewKey + 1;
    }

    /** `toggleId(id)`: a copy of the set with `id` removed if present, added otherwise. */
    method ToggleId(id: string)
      modifies this
      ensures collapsed == Toggled(old(collapsed), id)
      ensures tree == old(tree) && viewKey == old(viewKey) && initialDepth == old(initialDepth)
    {
      var next := collapsed;
      if id in next {
        next := next - {id};
      } else {
        next := next + {id};
      }
      collapsed := next;
    }

    /** `viewData`: the tree with the collapsed nodes pruned, once there is a tree. */
    function ViewData(): (r: Option<Node>)
      reads this
      ensures r.Some? <==> tree.Some?
      ensures r.Some? ==> r.value.id == tree.value.id
      ensures r.Some? ==> r.value == ApplyCollapsed(tree.value, collapsed)
    {
      match tree
      case Some(t) => Some(ApplyCollapsed(t, collapsed))
      case None => None
    }
  }
}
