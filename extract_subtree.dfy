/**
 * The tree queries of python/extract_subtree.py over the JSON tree: the first node whose
 * lower-cased name contains a needle, the path to it and its depth, the chain of copies
 * along a path, the tree cut at an id threshold, and the tree cut at a depth.
 * Python's `str.lower` is a parameter `lower`: the model assumes nothing about case mapping.
 */
module ExtractSubtree {
  import opened Wrappers
  import opened Trees
  import Decimal
  import Outline

  // ---------------------------------------------------------------------------------------
  // Name search

  /** Python's `needle in s` on strings. */
  predicate Contains(s: string, needle: string) {
    exists i :: 0 <= i <= |s| && needle <= s[i..]
  }

  /** `needle in node.get("name", "").lower()`. */
  predicate Matches(t: Node, needle: string, lower: string -> string) {
    Contains(lower(t.name), needle)
  }

  /** The index of the first matching node of a list, if any. */
  function FirstMatch(ns: seq<Node>, needle: string, lower: string -> string): (r: Option<nat>)
    ensures r.Some? ==> r.value < |ns| && Matches(ns[r.value], needle, lower)
    ensures r.Some? ==> forall j :: 0 <= j < r.value ==> !Matches(ns[j], needle, lower)
    ensures r.None? ==> forall j :: 0 <= j < |ns| ==> !Matches(ns[j], needle, lower)
  {
    if ns == [] then None
    else if Matches(ns[0], needle, lower) then Some(0)
    else match FirstMatch(ns[1..], needle, lower)
      case Some(i) => Some(i + 1)
      case None => None
  }

  /** The first matching node of a list, if any. */
  function FirstMatching(ns: seq<Node>, needle: string, lower: string -> string): Option<Node> {
    match FirstMatch(ns, needle, lower)
    case Some(i) => Some(ns[i])
    case None => None
  }

  lemma {:induction false} FirstMatchingConcat(a: seq<Node>, b: seq<Node>, needle: string, lower: string -> string)
    ensures FirstMatching(a + b, needle, lower) ==
      if FirstMatching(a, needle, lower).Some? then FirstMatching(a, needle, lower)
      else FirstMatching(b, needle, lower)
  {
    if a != [] {
      assert (a + b)[1..] == a[1..] + b;
      FirstMatchingConcat(a[1..], b, needle, lower);
    } else {
      assert a + b == b;
    }
  }

  /** `find_subtree`: the node itself if it matches, else the first hit among its children. */
  function FindSubtree(t: Node, needle: string, lower: string -> string): (r: Option<Node>)
    ensures r.Some? ==> Matches(r.value, needle, lower)
    ensures Matches(t, needle, lower) ==> r == Some(t)
    decreases t, 1
  {
    if Matches(t, needle, lower) then Some(t) else FindIn(t.children, needle, lower)
  }

  /** The `for ch in node.get("children", [])` loop of `find_subtree`. */
  function FindIn(cs: seq<Node>, needle: string, lower: string -> string): (r: Option<Node>)
    ensures r.Some? ==> Matches(r.value, needle, lower)
    decreases cs, 0
  {
    if cs == [] then None
    else match FindSubtree(cs[0], needle, lower)
      case Some(r) => Some(r)
      case None => FindIn(cs[1..], needle, lower)
  }

  /** `find_subtree` returns the first matching node in preorder, and `None` when none matches. */
  lemma {:induction false} FindSubtreeFirst(t: Node, needle: string, lower: string -> string)
    ensures FindSubtree(t, needle, lower) == FirstMatching(Nodes(t), needle, lower)
    decreases t, 1
  {
    FirstMatchingConcat([t], NodesOf(t.children), needle, lower);
    FindInFirst(t.children, needle, lower);
  }

  lemma {:induction false} FindInFirst(cs: seq<Node>, needle: string, lower: string -> string)
    ensures FindIn(cs, needle, lower) == FirstMatching(NodesOf(cs), needle, lower)
    decreases cs, 0
  {
    if cs != [] {
      FirstMatchingConcat(Nodes(cs[0]), NodesOf(cs[1..]), needle, lower);
      FindSubtreeFirst(cs[0], needle, lower);
      FindInFirst(cs[1..], needle, lower);
    }
  }

  /** `find_path`: `[node]` on a hit, else `[node] + p` for the first child with a path. */
  function FindPath(t: Node, needle: string, lower: string -> string): (r: Option<seq<Node>>)
    ensures r.Some? ==> |r.value| >= 1 && r.value[0] == t && Matches(r.value[|r.value| - 1], needle, lower)
    decreases t, 1
  {
    if Matches(t, needle, lower) then Some([t])
    else match PathIn(t.children, needle, lower)
      case Some(p) => Some([t] + p)
      case None => None
  }

  /** The loop of `find_path`: the first child's path that is truthy (a non-empty list). */
  function PathIn(cs: seq<Node>, needle: string, lower: string -> string): (r: Option<seq<Node>>)
    ensures r.Some? ==> |r.value| >= 1 && r.value[0] in cs && Matches(r.value[|r.value| - 1], needle, lower)
    decreases cs, 0
  {
    if cs == [] then None
    else
      var p := FindPath(cs[0], needle, lower);
      if p.Some? && p.value != [] then p else PathIn(cs[1..], needle, lower)
  }

  /** A non-empty list that starts at `t` in which every element is a child of the one before. */
  predicate ChainFrom(p: seq<Node>, t: Node) {
    && |p| >= 1 && p[0] == t
    && forall i :: 0 <= i < |p| - 1 ==> p[i + 1] in p[i].children
  }

  /**
   * `find_path` finds a path exactly when `find_subtree` finds a node; the path goes down
   * from the root one child at a time and ends at that node.
   */
  lemma {:induction false} FindPathSpec(t: Node, needle: string, lower: string -> string)
    ensures FindPath(t, needle, lower).None? <==> FindSubtree(t, needle, lower).None?
    ensures FindPath(t, needle, lower).Some? ==>
      var p := FindPath(t, needle, lower).value;
      ChainFrom(p, t) && FindSubtree(t, needle, lower) == Some(p[|p| - 1])
    decreases t, 1
  {
    if !Matches(t, needle, lower) {
      PathInSpec(t.children, needle, lower);
      var q := PathIn(t.children, needle, lower);
      if q.Some? {
        var p := [t] + q.value;
        forall i | 0 <= i < |p| - 1 ensures p[i + 1] in p[i].children {
          if i > 0 {
            assert p[i] == q.value[i - 1] && p[i + 1] == q.value[i];
          }
        }
      }
    }
  }

  lemma {:induction false} PathInSpec(cs: seq<Node>, needle: string, lower: string -> string)
    ensures PathIn(cs, needle, lower).None? <==> FindIn(cs, needle, lower).None?
    ensures PathIn(cs, needle, lower).Some? ==>
      var p := PathIn(cs, needle, lower).value;
      && |p| >= 1 && p[0] in cs
      && (forall i :: 0 <= i < |p| - 1 ==> p[i + 1] in p[i].children)
      && FindIn(cs, needle, lower) == Some(p[|p| - 1])
    decreases cs, 0
  {
    if cs != [] {
      FindPathSpec(cs[0], needle, lower);
      PathInSpec(cs[1..], needle, lower);
      var p := FindPath(cs[0], needle, lower);
      if !(p.Some? && p.value != []) {
        var q := PathIn(cs[1..], needle, lower);
        if q.Some? {
          assert q.value[0] in cs[1..];
        }
      }
    }
  }

  /** `find_depth(node, needle, depth)`: the depth of the first hit, counted from `depth`. */
  function FindDepth(t: Node, needle: string, lower: string -> string, depth: nat): (r: Option<nat>)
    ensures r.Some? ==> r.value >= depth
    ensures Matches(t, needle, lower) ==> r == Some(depth)
    decreases t, 1
  {
    if Matches(t, needle, lower) then Some(depth) else DepthIn(t.children, needle, lower, depth + 1)
  }

  /** The loop of `find_depth`: the first child whose depth is not `None`. */
  function DepthIn(cs: seq<Node>, needle: string, lower: string -> string, depth: nat): (r: Option<nat>)
    ensures r.Some? ==> r.value >= depth
    decreases cs, 0
  {
    if cs == [] then None
    else match FindDepth(cs[0], needle, lower, depth)
      case Some(d) => Some(d)
      case None => DepthIn(cs[1..], needle, lower, depth)
  }

  /** `find_depth` is the length of the `find_path` result minus one, offset by `depth`. */
  lemma {:induction false} FindDepthSpec(t: Node, needle: string, lower: string -> string, depth: nat)
    ensures FindDepth(t, needle, lower, depth).Some? <==> FindPath(t, needle, lower).Some?
    ensures FindPath(t, needle, lower).Some? ==>
      FindDepth(t, needle, lower, depth) == Some(depth + |FindPath(t, needle, lower).value| - 1)
    decreases t, 1
  {
    if !Matches(t, needle, lower) {
      DepthInSpec(t.children, needle, lower, depth + 1);
    }
  }

  lemma {:induction false} DepthInSpec(cs: seq<Node>, needle: string, lower: string -> string, depth: nat)
    ensures DepthIn(cs, needle, lower, depth).Some? <==> PathIn(cs, needle, lower).Some?
    ensures PathIn(cs, needle, lower).Some? ==>
      |PathIn(cs, needle, lower).value| >= 1 &&
      DepthIn(cs, needle, lower, depth) == Some(depth + |PathIn(cs, needle, lower).value| - 1)
    decreases cs, 0
  {
    if cs != [] {
      FindDepthSpec(cs[0], needle, lower, depth);
      FindPathSpec(cs[0], needle, lower);
      DepthInSpec(cs[1..], needle, lower, depth);
    }
  }

  /** Searched from the root, the depth of the hit is one less than the length of its path. */
  lemma FindDepthIsPathLength(t: Node, needle: string, lower: string -> string)
    ensures FindDepth(t, needle, lower, 0).Some? <==> FindSubtree(t, needle, lower).Some?
    ensures FindPath(t, needle, lower).Some? ==>
      FindDepth(t, needle, lower, 0) == Some(|FindPath(t, needle, lower).value| - 1)
  {
    FindDepthSpec(t, needle, lower, 0);
    FindPathSpec(t, needle, lower);
  }

  // ---------------------------------------------------------------------------------------
  // build_path_tree

  /** A dict made by `clone_basic`: `{"id": ..., "name": ..., "children": []}`. */
  class Dict {
    var id: string
    var name: string
    var children: seq<Dict>

    constructor(id: string, name: string)
      ensures this.id == id && this.name == name && children == []
    {
      this.id := id;
      this.name := name;
      children := [];
    }
  }

  /**
   * `build_path_tree`: a chain of fresh copies, each appended to the children of the one
   * before through the `cur` pointer. `ns` names the copies in path order.
   */
  method BuildPathTree(path: seq<Node>) returns (chain: Dict, ghost ns: seq<Dict>)
    requires |path| >= 1
    ensures |ns| == |path| && ns[0] == chain
    ensures forall i :: 0 <= i < |ns| ==> fresh(ns[i])
    ensures forall i :: 0 <= i < |ns| ==> ns[i].id == path[i].id && ns[i].name == path[i].name
    ensures forall i :: 0 <= i < |ns| - 1 ==> ns[i].children == [ns[i + 1]]
    ensures ns[|ns| - 1].children == []
  {
    chain := new Dict(path[0].id, path[0].name);
    var cur := chain;
    ns := [chain];
    for k := 1 to |path|
      invariant |ns| == k && ns[0] == chain && cur == ns[k - 1]
      invariant forall i :: 0 <= i < k ==> fresh(ns[i])
      invariant forall i, j :: 0 <= i < j < k ==> ns[i] != ns[j]
      invariant forall i :: 0 <= i < k ==> ns[i].id == path[i].id && ns[i].name == path[i].name
      invariant forall i :: 0 <= i < k - 1 ==> ns[i].children == [ns[i + 1]]
      invariant cur.children == []
    {
      var nxt := new Dict(path[k].id, path[k].name);
      cur.children := cur.children + [nxt];
      cur := nxt;
      ns := ns + [nxt];
    }
  }

  // ---------------------------------------------------------------------------------------
  // id_num and filter_tree

  /** `s.lstrip("n")`. */
  function LStripN(s: string): (r: string)
    ensures |r| <= |s| && r == s[|s| - |r|..]
    ensures r == [] || r[0] != 'n'
    ensures forall i :: 0 <= i < |s| - |r| ==> s[i] == 'n'
  {
    if s != [] && s[0] == 'n' then LStripN(s[1..]) else s
  }

  /** `id_num`: the number after the leading `n`s, and 0 when that is not a number. */
  function IdNum(id: string): (r: nat)
    ensures LStripN(id) == [] ==> r == 0
    ensures r > 0 ==> Decimal.AllDigits(LStripN(id)) && Decimal.Parse(LStripN(id)) == r
    ensures LStripN(id) != [] && Decimal.AllDigits(LStripN(id)) ==> r == Decimal.Parse(LStripN(id))
    ensures !Decimal.AllDigits(LStripN(id)) ==> r == 0
  {
    var d := LStripN(id);
    if d != [] && Decimal.AllDigits(d) then Decimal.Parse(d) else 0
  }

  /** The ids the outline parsers generate read back as their counter; `"root"` reads as 0. */
  lemma IdNumOfGenerated(k: nat)
    ensures IdNum(Outline.IdOf(k)) == k + 1
    ensures IdNum(Outline.SyntheticRootId) == 0
  {
    var s := Decimal.Str(k + 1);
    assert Decimal.IsDigit(s[0]);
    assert s[0] != 'n';
    assert LStripN(s) == s;
    assert Outline.IdOf(k) == "n" + s;
    assert ("n" + s)[1..] == s;
    assert LStripN("n" + s) == LStripN(s);
    Decimal.ParseStr(k + 1);
    assert "root"[0] == 'r' && !Decimal.IsDigit('r');
    assert LStripN("root") == "root";
    assert !Decimal.AllDigits("root");
  }

  /** Zero padding after the `n` does not change the number: `"n007"` reads as 7. */
  lemma IdNumZeroPadded(z: nat, k: nat)
    ensures IdNum("n" + Decimal.Zeros(z) + Decimal.Str(k)) == k
  {
    var s := Decimal.Zeros(z) + Decimal.Str(k);
    Decimal.ParseZeroPadded(z, Decimal.Str(k));
    Decimal.ParseStr(k);
    assert Decimal.IsDigit(s[0]) && s[0] != 'n';
    assert LStripN(s) == s;
    assert "n" + Decimal.Zeros(z) + Decimal.Str(k) == "n" + s;
    assert ("n" + s)[1..] == s;
    assert LStripN("n" + s) == LStripN(s);
  }

  /** The kept copies of a list of children, in their order. */
  function FilteredKids(cs: seq<Node>, maxId: int): (r: seq<Node>)
    ensures |r| <= |cs|
    decreases cs, 0
  {
    if cs == [] then [] else Kept(cs[0], maxId) + FilteredKids(cs[1..], maxId)
  }

  /** What one child adds to the copy's children: its copy, or nothing. */
  function Kept(c: Node, maxId: int): (r: seq<Node>)
    ensures |r| <= 1 && (r == [] <==> IdNum(c.id) > maxId)
    ensures r != [] ==> r[0].id == c.id
    decreases c, 2
  {
    match Filtered(c, maxId)
    case Some(k) => [k]
    case None => []
  }

  /** What `filter_tree(node)` returns. */
  function Filtered(t: Node, maxId: int): (r: Option<Node>)
    ensures r.None? <==> IdNum(t.id) > maxId
    ensures r.Some? ==> r.value.id == t.id && r.value.name == t.name && r.value.collapsed == None
    decreases t, 1
  {
    if IdNum(t.id) > maxId then None else Some(Node(t.id, t.name, FilteredKids(t.children, maxId), None))
  }

  /** `filter_tree`: the copy's children are appended in a loop over the original children. */
  method FilterTree(t: Node, maxId: int) returns (r: Option<Node>)
    ensures r == Filtered(t, maxId)
    decreases t, 1
  {
    if IdNum(t.id) > maxId {
      return None;
    }
    var kept: seq<Node> := [];
    for i := 0 to |t.children|
      invariant kept == FilteredKids(t.children[..i], maxId)
    {
      kept := FilterChild(t.children, i, kept, maxId);
    }
    assert t.children[..|t.children|] == t.children;
    r := Some(Node(t.id, t.name, kept, None));
  }

  /** One iteration: `fch = filter_tree(ch)`, appended when it is not `None`. */
  method FilterChild(cs: seq<Node>, i: nat, kept: seq<Node>, maxId: int) returns (kept': seq<Node>)
    requires i < |cs| && kept == FilteredKids(cs[..i], maxId)
    ensures kept' == FilteredKids(cs[..i + 1], maxId)
    decreases cs, 0
  {
    FilteredKidsStep(cs, i, maxId);
    var f := FilterTree(cs[i], maxId);
    kept' := kept;
    if f.Some? {
      kept' := kept + [f.value];
    }
  }

  lemma FilteredKidsStep(cs: seq<Node>, i: nat, maxId: int)
    requires i < |cs|
    ensures FilteredKids(cs[..i + 1], maxId) == FilteredKids(cs[..i], maxId) + Kept(cs[i], maxId)
  {
    TakeSnoc(cs, i);
    FilteredKidsConcat(cs[..i], [cs[i]], maxId);
    FilteredKidsSingle(cs[i], maxId);
  }

  lemma FilteredKidsSingle(c: Node, maxId: int)
    ensures FilteredKids([c], maxId) == Kept(c, maxId)
  {
    assert [c][1..] == [];
    assert FilteredKids([c], maxId) == Kept(c, maxId) + FilteredKids([], maxId);
  }

  /** Every node `filter_tree` keeps has `id_num <= max_id`. */
  lemma {:induction false} FilteredBound(t: Node, maxId: int)
    requires Filtered(t, maxId).Some?
    ensures forall x :: x in Nodes(Filtered(t, maxId).value) ==> IdNum(x.id) <= maxId
    decreases t, 1
  {
    FilteredKidsBound(t.children, maxId);
  }

  lemma {:induction false} FilteredKidsBound(cs: seq<Node>, maxId: int)
    ensures forall x :: x in NodesOf(FilteredKids(cs, maxId)) ==> IdNum(x.id) <= maxId
    decreases cs, 0
  {
    if cs != [] {
      var head := Kept(cs[0], maxId);
      var tail := FilteredKids(cs[1..], maxId);
      assert FilteredKids(cs, maxId) == head + tail;
      NodesOfConcat(head, tail);
      FilteredKidsBound(cs[1..], maxId);
      KeptBound(cs[0], maxId);
    }
  }

  lemma {:induction false} KeptBound(c: Node, maxId: int)
    ensures forall x :: x in NodesOf(Kept(c, maxId)) ==> IdNum(x.id) <= maxId
    decreases c, 2
  {
    var head := Kept(c, maxId);
    if head != [] {
      FilteredBound(c, maxId);
      assert head[1..] == [];
      assert NodesOf(head) == Nodes(head[0]) + NodesOf(head[1..]);
    }
  }

  lemma {:induction false} NodesOfConcat(a: seq<Node>, b: seq<Node>)
    ensures NodesOf(a + b) == NodesOf(a) + NodesOf(b)
  {
    if a != [] {
      assert (a + b)[1..] == a[1..] + b;
      NodesOfConcat(a[1..], b);
    } else {
      assert a + b == b;
    }
  }

  /** `a` is `b` with some elements left out (the rest in order). */
  predicate Subseq<T(==)>(a: seq<T>, b: seq<T>)
    decreases |b|
  {
    a == [] || (b != [] && ((a[0] == b[0] && Subseq(a[1..], b[1..])) || Subseq(a, b[1..])))
  }

  lemma {:induction false} SubseqRefl<T>(a: seq<T>)
    ensures Subseq(a, a)
    decreases |a|
  {
    if a != [] {
      SubseqRefl(a[1..]);
    }
  }

  lemma {:induction false} SubseqConcat<T>(a1: seq<T>, b1: seq<T>, a2: seq<T>, b2: seq<T>)
    requires Subseq(a1, b1) && Subseq(a2, b2)
    ensures Subseq(a1 + a2, b1 + b2)
    decreases |b1|
  {
    if a1 == [] {
      assert a1 + a2 == a2;
      SubseqSuffix(a2, b1, b2);
    } else if a1[0] == b1[0] && Subseq(a1[1..], b1[1..]) {
      SubseqConcat(a1[1..], b1[1..], a2, b2);
      assert (a1 + a2)[1..] == a1[1..] + a2;
      assert (b1 + b2)[1..] == b1[1..] + b2;
    } else {
      SubseqConcat(a1, b1[1..], a2, b2);
      assert (b1 + b2)[1..] == b1[1..] + b2;
    }
  }

  /** Extra elements in front do not hurt. */
  lemma {:induction false} SubseqSuffix<T>(a: seq<T>, pre: seq<T>, b: seq<T>)
    requires Subseq(a, b)
    ensures Subseq(a, pre + b)
    decreases |pre|
  {
    if pre != [] {
      SubseqSuffix(a, pre[1..], b);
      assert (pre + b)[1..] == pre[1..] + b;
    } else {
      assert pre + b == b;
    }
  }

  lemma {:induction false} SubseqIn<T>(a: seq<T>, b: seq<T>, x: T)
    requires Subseq(a, b)
    ensures x in a ==> x in b
    decreases |b|
  {
    if a != [] {
      if a[0] == b[0] && Subseq(a[1..], b[1..]) {
        SubseqIn(a[1..], b[1..], x);
      } else {
        SubseqIn(a, b[1..], x);
      }
    }
  }

  /** The kept ids are the original ids with some left out: the order is unchanged. */
  lemma {:induction false} FilteredIdsOrder(t: Node, maxId: int)
    requires Filtered(t, maxId).Some?
    ensures Subseq(Ids(Filtered(t, maxId).value), Ids(t))
    decreases t, 1
  {
    FilteredKidsIdsOrder(t.children, maxId);
    assert Ids(Filtered(t, maxId).value) == [t.id] + IdsOf(FilteredKids(t.children, maxId));
    SubseqRefl([t.id]);
    SubseqConcat([t.id], [t.id], IdsOf(FilteredKids(t.children, maxId)), IdsOf(t.children));
  }

  lemma {:induction false} FilteredKidsIdsOrder(cs: seq<Node>, maxId: int)
    ensures Subseq(IdsOf(FilteredKids(cs, maxId)), IdsOf(cs))
    decreases cs, 0
  {
    if cs != [] {
      var head := Kept(cs[0], maxId);
      var tail := FilteredKids(cs[1..], maxId);
      assert FilteredKids(cs, maxId) == head + tail;
      IdsOfConcat(head, tail);
      FilteredKidsIdsOrder(cs[1..], maxId);
      KeptIdsOrder(cs[0], maxId);
      SubseqConcat(IdsOf(head), Ids(cs[0]), IdsOf(tail), IdsOf(cs[1..]));
      assert IdsOf(cs) == Ids(cs[0]) + IdsOf(cs[1..]);
    } else {
      assert Subseq<string>([], []);
    }
  }

  lemma {:induction false} KeptIdsOrder(c: Node, maxId: int)
    ensures Subseq(IdsOf(Kept(c, maxId)), Ids(c))
    decreases c, 2
  {
    var head := Kept(c, maxId);
    if head != [] {
      FilteredIdsOrder(c, maxId);
      assert head[1..] == [];
      assert IdsOf(head) == Ids(head[0]) + IdsOf(head[1..]);
      assert Ids(head[0]) + [] == Ids(head[0]);
    } else {
      assert Subseq([], Ids(c));
    }
  }

  lemma {:induction false} IdsOfConcat(a: seq<Node>, b: seq<Node>)
    ensures IdsOf(a + b) == IdsOf(a) + IdsOf(b)
  {
    if a != [] {
      assert (a + b)[1..] == a[1..] + b;
      IdsOfConcat(a[1..], b);
    } else {
      assert a + b == b;
    }
  }

  /** A dropped child contributes nothing: the kept copies are those before it and after it. */
  lemma FilteredKidsSkip(cs: seq<Node>, maxId: int, k: nat)
    requires k < |cs| && IdNum(cs[k].id) > maxId
    ensures FilteredKids(cs, maxId) == FilteredKids(cs[..k], maxId) + FilteredKids(cs[k + 1..], maxId)
  {
    FilteredKidsSplit(cs, maxId, k);
    EmptyMiddle(FilteredKids(cs[..k], maxId), Kept(cs[k], maxId), FilteredKids(cs[k + 1..], maxId));
  }

  lemma EmptyMiddle<T>(a: seq<T>, m: seq<T>, b: seq<T>)
    requires m == []
    ensures a + m + b == a + b
  {
  }

  lemma IdsOfSplit(cs: seq<Node>, k: nat)
    requires k < |cs|
    ensures IdsOf(cs) == IdsOf(cs[..k]) + Ids(cs[k]) + IdsOf(cs[k + 1..])
  {
    TakeSnoc(cs, k);
    IdsOfSnoc(cs[..k], cs[k]);
    TakeDrop(cs, k + 1);
    IdsOfConcat(cs[..k + 1], cs[k + 1..]);
  }

  lemma TakeSnoc<T>(s: seq<T>, k: nat)
    requires k < |s|
    ensures s[..k + 1] == s[..k] + [s[k]]
  {
  }

  lemma TakeDrop<T>(s: seq<T>, k: nat)
    requires k <= |s|
    ensures s == s[..k] + s[k..]
  {
  }

  lemma SeqAssoc<T>(a: seq<T>, b: seq<T>, c: seq<T>)
    ensures a + (b + c) == a + b + c
  {
  }

  /** Without child `k`, the kept ids come from the root and the other children, in order. */
  lemma FilteredIdsWithout(t: Node, maxId: int, k: nat)
    requires Filtered(t, maxId).Some? && k < |t.children| && IdNum(t.children[k].id) > maxId
    ensures Subseq(Ids(Filtered(t, maxId).value),
                   [t.id] + IdsOf(t.children[..k]) + IdsOf(t.children[k + 1..]))
  {
    var pre, post := t.children[..k], t.children[k + 1..];
    var fpre, fpost := FilteredKids(pre, maxId), FilteredKids(post, maxId);
    FilteredKidsSkip(t.children, maxId, k);
    IdsOfConcat(fpre, fpost);
    FilteredKidsIdsOrder(pre, maxId);
    FilteredKidsIdsOrder(post, maxId);
    SubseqRefl([t.id]);
    SubseqConcat([t.id], [t.id], IdsOf(fpre), IdsOf(pre));
    SubseqConcat([t.id] + IdsOf(fpre), [t.id] + IdsOf(pre), IdsOf(fpost), IdsOf(post));
    var r := Filtered(t, maxId).value;
    assert r.children == fpre + fpost;
    assert Ids(r) == [t.id] + (IdsOf(fpre) + IdsOf(fpost));
    SeqAssoc([t.id], IdsOf(fpre), IdsOf(fpost));
  }

  /**
   * In a tree whose ids are distinct, a child that `filter_tree` drops takes its whole
   * subtree along: none of the child's ids or its descendants' ids is in the result.
   */
  lemma DroppedChildAbsent(t: Node, maxId: int, k: nat, x: string)
    requires NoDup(Ids(t)) && Filtered(t, maxId).Some?
    requires k < |t.children| && IdNum(t.children[k].id) > maxId
    requires x in Ids(t.children[k])
    ensures x !in Ids(Filtered(t, maxId).value)
  {
    var a, c := [t.id] + IdsOf(t.children[..k]), IdsOf(t.children[k + 1..]);
    IdsOfSplit(t.children, k);
    assert Ids(t) == [t.id] + IdsOf(t.children);
    SeqAssoc([t.id], IdsOf(t.children[..k]) + Ids(t.children[k]), c);
    SeqAssoc([t.id], IdsOf(t.children[..k]), Ids(t.children[k]));
    NotInRest(a, Ids(t.children[k]), c, x);
    FilteredIdsWithout(t, maxId, k);
    SubseqIn(Ids(Filtered(t, maxId).value), a + c, x);
  }

  /** In a duplicate-free `a + b + c`, an element of `b` is in neither `a` nor `c`. */
  lemma NotInRest<T>(a: seq<T>, b: seq<T>, c: seq<T>, x: T)
    requires NoDup(a + b + c) && x in b
    ensures x !in a + c
  {
    var s := a + b + c;
    var j :| 0 <= j < |b| && b[j] == x;
    assert s[|a| + j] == x;
    forall i | 0 <= i < |a| ensures a[i] != x {
      assert s[i] == a[i];
    }
    forall i | 0 <= i < |c| ensures c[i] != x {
      assert s[|a| + |b| + i] == c[i];
    }
  }

  /** Child `k` contributes its own copy, between the copies of its siblings before and after. */
  lemma FilteredKidsSplit(cs: seq<Node>, maxId: int, k: nat)
    requires k < |cs|
    ensures FilteredKids(cs, maxId) == FilteredKids(cs[..k], maxId) + Kept(cs[k], maxId) + FilteredKids(cs[k + 1..], maxId)
  {
    TakeDrop(cs, k);
    FilteredKidsConcat(cs[..k], cs[k..], maxId);
    assert cs[k..][0] == cs[k] && cs[k..][1..] == cs[k + 1..];
    FilteredKidsCons(cs[k..], maxId);
    SeqAssoc(FilteredKids(cs[..k], maxId), Kept(cs[k], maxId), FilteredKids(cs[k + 1..], maxId));
  }

  /** A slice of a duplicate-free list is duplicate-free. */
  lemma NoDupMiddle<T>(a: seq<T>, b: seq<T>, c: seq<T>)
    requires NoDup(a + b + c)
    ensures NoDup(b)
  {
    forall i, j | 0 <= i < j < |b| ensures b[i] != b[j] {
      assert (a + b + c)[|a| + i] == b[i] && (a + b + c)[|a| + j] == b[j];
    }
  }

  /** The ids of a tree around child `k`: the root, the children before, child `k`, the children after. */
  lemma IdsAround(t: Node, k: nat)
    requires k < |t.children|
    ensures Ids(t) == ([t.id] + IdsOf(t.children[..k])) + Ids(t.children[k]) + IdsOf(t.children[k + 1..])
  {
    IdsOfSplit(t.children, k);
    Assoc4([t.id], IdsOf(t.children[..k]), Ids(t.children[k]), IdsOf(t.children[k + 1..]));
  }

  lemma Assoc4<T>(a: seq<T>, b: seq<T>, c: seq<T>, d: seq<T>)
    ensures a + (b + c + d) == (a + b) + c + d
  {
  }

  /** A child of a tree with distinct ids has distinct ids. */
  lemma NoDupChild(t: Node, k: nat)
    requires NoDup(Ids(t)) && k < |t.children|
    ensures NoDup(Ids(t.children[k]))
  {
    IdsAround(t, k);
    NoDupMiddle([t.id] + IdsOf(t.children[..k]), Ids(t.children[k]), IdsOf(t.children[k + 1..]));
  }

  /** The ids of the subtree a path leads to are ids of the tree. */
  lemma {:induction false} AtIdsIn(t: Node, p: seq<nat>, x: string)
    requires IsPath(t, p) && x in Ids(At(t, p))
    ensures x in Ids(t)
    decreases p
  {
    if p != [] {
      var c := t.children[p[0]];
      AtIdsIn(c, p[1..], x);
      InIdsOf(t.children, x);
      assert Ids(t) == [t.id] + IdsOf(t.children);
    }
  }

  /** A kept child `k` contributes its copy between the copies of its siblings. */
  lemma FilteredKidsKept(cs: seq<Node>, maxId: int, k: nat)
    requires k < |cs| && Filtered(cs[k], maxId).Some?
    ensures FilteredKids(cs, maxId) ==
      FilteredKids(cs[..k], maxId) + [Filtered(cs[k], maxId).value] + FilteredKids(cs[k + 1..], maxId)
  {
    FilteredKidsSplit(cs, maxId, k);
    assert Kept(cs[k], maxId) == [Filtered(cs[k], maxId).value];
  }

  lemma IdsOfAround(a: seq<Node>, c: Node, b: seq<Node>)
    ensures IdsOf(a + [c] + b) == IdsOf(a) + Ids(c) + IdsOf(b)
  {
    IdsOfConcat(a + [c], b);
    IdsOfSnoc(a, c);
  }

  /** The ids of the copy around kept child `k`: the root, the siblings before, the child, the siblings after. */
  lemma FilteredIdsAround(t: Node, maxId: int, k: nat)
    requires Filtered(t, maxId).Some? && k < |t.children| && Filtered(t.children[k], maxId).Some?
    ensures Ids(Filtered(t, maxId).value) ==
      ([t.id] + IdsOf(FilteredKids(t.children[..k], maxId))) + Ids(Filtered(t.children[k], maxId).value)
      + IdsOf(FilteredKids(t.children[k + 1..], maxId))
  {
    var fpre, fc, fpost := FilteredKids(t.children[..k], maxId), Filtered(t.children[k], maxId).value,
                           FilteredKids(t.children[k + 1..], maxId);
    var r := Filtered(t, maxId).value;
    FilteredKidsKept(t.children, maxId, k);
    assert r.children == fpre + [fc] + fpost;
    IdsOfAround(fpre, fc, fpost);
    assert Ids(r) == [r.id] + IdsOf(r.children);
    Assoc4([t.id], IdsOf(fpre), Ids(fc), IdsOf(fpost));
  }

  /**
   * In a tree with distinct ids, an id of kept child `k` is in the copy of the tree exactly
   * when it is in the copy of that child.
   */
  lemma KeptChildIds(t: Node, maxId: int, k: nat, x: string)
    requires NoDup(Ids(t)) && Filtered(t, maxId).Some? && k < |t.children|
    requires Filtered(t.children[k], maxId).Some? && x in Ids(t.children[k])
    ensures x in Ids(Filtered(t, maxId).value) <==> x in Ids(Filtered(t.children[k], maxId).value)
  {
    var pre, post := t.children[..k], t.children[k + 1..];
    var fpre, fpost := FilteredKids(pre, maxId), FilteredKids(post, maxId);
    var a, c := [t.id] + IdsOf(pre), IdsOf(post);
    IdsAround(t, k);
    NotInRest(a, Ids(t.children[k]), c, x);
    FilteredIdsAround(t, maxId, k);
    FilteredKidsIdsOrder(pre, maxId);
    FilteredKidsIdsOrder(post, maxId);
    SubseqRefl([t.id]);
    SubseqConcat([t.id], [t.id], IdsOf(fpre), IdsOf(pre));
    SubseqIn([t.id] + IdsOf(fpre), a, x);
    SubseqIn(IdsOf(fpost), c, x);
  }

  /** Every node of a path is within the bound: `filter_tree` keeps each of them. */
  predicate Survives(t: Node, maxId: int, p: seq<nat>)
    decreases p
  {
    IdNum(t.id) <= maxId && (p == [] || (p[0] < |t.children| && Survives(t.children[p[0]], maxId, p[1..])))
  }

  /**
   * In a tree with distinct ids, the node a path leads to is in the result of `filter_tree`
   * exactly when it and all its ancestors have an id number within the bound.
   */
  lemma {:induction false} FilteredKeepsExactly(t: Node, maxId: int, p: seq<nat>)
    requires NoDup(Ids(t)) && IsPath(t, p)
    ensures (Filtered(t, maxId).Some? && At(t, p).id in Ids(Filtered(t, maxId).value)) <==> Survives(t, maxId, p)
    decreases p
  {
    if p != [] && IdNum(t.id) <= maxId {
      var k, c := p[0], t.children[p[0]];
      var x := At(t, p).id;
      assert x == At(c, p[1..]).id;
      AtIdsIn(c, p[1..], x);
      if IdNum(c.id) > maxId {
        DroppedChildAbsent(t, maxId, k, x);
      } else {
        NoDupChild(t, k);
        FilteredKeepsExactly(c, maxId, p[1..]);
        KeptChildIds(t, maxId, k, x);
      }
    }
  }

  /**
   * In a tree with distinct ids, a node that `filter_tree` drops, at any depth, takes its
   * whole subtree along: none of its ids is in the result.
   */
  lemma {:induction false} DroppedNodeAbsent(t: Node, maxId: int, p: seq<nat>, x: string)
    requires NoDup(Ids(t)) && IsPath(t, p) && IdNum(At(t, p).id) > maxId
    requires x in Ids(At(t, p))
    ensures Filtered(t, maxId).Some? ==> x !in Ids(Filtered(t, maxId).value)
    decreases p
  {
    if p != [] && IdNum(t.id) <= maxId {
      var k, c := p[0], t.children[p[0]];
      AtIdsIn(c, p[1..], x);
      if IdNum(c.id) > maxId {
        DroppedChildAbsent(t, maxId, k, x);
      } else {
        NoDupChild(t, k);
        DroppedNodeAbsent(c, maxId, p[1..], x);
        KeptChildIds(t, maxId, k, x);
      }
    }
  }

  lemma {:induction false} FilteredKidsConcat(a: seq<Node>, b: seq<Node>, maxId: int)
    ensures FilteredKids(a + b, maxId) == FilteredKids(a, maxId) + FilteredKids(b, maxId)
  {
    if a != [] {
      assert (a + b)[0] == a[0] && (a + b)[1..] == a[1..] + b;
      FilteredKidsConcat(a[1..], b, maxId);
      FilteredKidsCons(a + b, maxId);
      FilteredKidsCons(a, maxId);
      SeqAssoc(Kept(a[0], maxId), FilteredKids(a[1..], maxId), FilteredKids(b, maxId));
    } else {
      assert a + b == b;
    }
  }

  lemma FilteredKidsCons(cs: seq<Node>, maxId: int)
    requires cs != []
    ensures FilteredKids(cs, maxId) == Kept(cs[0], maxId) + FilteredKids(cs[1..], maxId)
  {
  }

  /** When every id is within the bound, `filter_tree` copies the whole tree (without flags). */
  lemma {:induction false} FilteredKeepsAll(t: Node, maxId: int)
    requires forall x :: x in Nodes(t) ==> IdNum(x.id) <= maxId
    ensures Filtered(t, maxId) == Some(Strip(t))
    decreases t, 1
  {
    FilteredKidsKeepAll(t.children, maxId);
    var r := Filtered(t, maxId).value;
    assert r.children == Strip(t).children;
  }

  lemma {:induction false} FilteredKidsKeepAll(cs: seq<Node>, maxId: int)
    requires forall x :: x in NodesOf(cs) ==> IdNum(x.id) <= maxId
    ensures |FilteredKids(cs, maxId)| == |cs|
    ensures forall i :: 0 <= i < |cs| ==> FilteredKids(cs, maxId)[i] == Strip(cs[i])
    decreases cs, 0
  {
    if cs != [] {
      assert NodesOf(cs) == Nodes(cs[0]) + NodesOf(cs[1..]);
      FilteredKeepsAll(cs[0], maxId);
      FilteredKidsKeepAll(cs[1..], maxId);
      assert Kept(cs[0], maxId) == [Strip(cs[0])];
      StripCons(cs, FilteredKids(cs[1..], maxId));
    }
  }

  /** A stripped head in front of the stripped tail is the stripped list. */
  lemma StripCons(cs: seq<Node>, rest: seq<Node>)
    requires cs != [] && |rest| == |cs| - 1
    requires forall i :: 0 <= i < |cs| - 1 ==> rest[i] == Strip(cs[1..][i])
    ensures |[Strip(cs[0])] + rest| == |cs|
    ensures forall i :: 0 <= i < |cs| ==> ([Strip(cs[0])] + rest)[i] == Strip(cs[i])
  {
    var fs := [Strip(cs[0])] + rest;
    forall i | 1 <= i < |cs| ensures fs[i] == Strip(cs[i]) {
      assert fs[i] == rest[i - 1];
      assert cs[1..][i - 1] == cs[i];
    }
  }

  // ---------------------------------------------------------------------------------------
  // prune_by_depth

  /** What `prune_by_depth(node, cur)` returns for `target_depth = target`. */
  function Pruned(t: Node, cur: nat, target: nat): (r: Node)
    ensures r.id == t.id && r.name == t.name && r.collapsed == None
    ensures cur >= target ==> r.children == []
    ensures cur < target ==> |r.children| == |t.children|
  {
    Node(t.id, t.name,
         if cur >= target then []
         else seq(|t.children|, i requires 0 <= i < |t.children| => Pruned(t.children[i], cur + 1, target)),
         None)
  }

  /** `prune_by_depth`: copy the node, then append the pruned copy of each child in turn. */
  method PruneByDepth(t: Node, cur: nat, target: nat) returns (r: Node)
    ensures r == Pruned(t, cur, target)
    decreases t
  {
    if cur >= target {
      return Node(t.id, t.name, [], None);
    }
    var kept: seq<Node> := [];
    for i := 0 to |t.children|
      invariant |kept| == i && forall j :: 0 <= j < i ==> kept[j] == Pruned(t.children[j], cur + 1, target)
    {
      var c := PruneByDepth(t.children[i], cur + 1, target);
      kept := kept + [c];
    }
    r := Node(t.id, t.name, kept, None);
  }

  /**
   * The pruned tree has exactly the paths of the original that end at most `target - cur`
   * levels down, with the same ids and names; a node at the target depth has no children.
   */
  lemma {:induction false} PrunedPaths(t: Node, cur: nat, target: nat, p: seq<nat>)
    ensures IsPath(Pruned(t, cur, target), p) <==> p == [] || (IsPath(t, p) && cur + |p| <= target)
    ensures IsPath(Pruned(t, cur, target), p) ==>
      && At(Pruned(t, cur, target), p).id == At(t, p).id
      && At(Pruned(t, cur, target), p).name == At(t, p).name
      && (cur + |p| >= target ==> At(Pruned(t, cur, target), p).children == [])
      && (cur + |p| < target ==> |At(Pruned(t, cur, target), p).children| == |At(t, p).children|)
    decreases p
  {
    if p != [] && cur < target && p[0] < |t.children| {
      PrunedPaths(t.children[p[0]], cur + 1, target, p[1..]);
    }
  }
}
