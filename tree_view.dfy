/**
 * The pure helpers of src/TreeView.tsx: the copy handed to the tree widget, the greedy
 * word wrapper for node labels, the node box height and the "has children" test that
 * decides whether a click toggles.
 */
module TreeView {
  import opened Wrappers
  import opened Trees
  import opened Text
  import App

  // ---------------------------------------------------------------------------------------
  // toRaw

  /** The widget's node shape: `children` and `collapsed` are optional fields. */
  datatype RawNode = RawNode(id: string, name: string, children: RawChildren,
                             collapsed: Option<bool>)

  /** An optional `children?: RawNode[]` field: absent, or an array. */
  datatype RawChildren = Absent | Present(nodes: seq<RawNode>)

  /** `toRaw`: a structural copy; `node.children?.map(toRaw)` is always present here. */
  function ToRaw(t: Node): (r: RawNode)
    ensures r.id == t.id && r.name == t.name && r.collapsed == t.collapsed
    ensures r.children.Present? && |r.children.nodes| == |t.children|
  {
    RawNode(t.id, t.name,
            Present(seq(|t.children|, i requires 0 <= i < |t.children| => ToRaw(t.children[i]))),
            t.collapsed)
  }

  /** Reading a widget node back as a tree node; a missing `children` reads as none. */
  function FromRaw(r: RawNode): Node {
    match r
    case RawNode(id, name, Absent, collapsed) => Node(id, name, [], collapsed)
    case RawNode(id, name, Present(cs), collapsed) =>
      Node(id, name, seq(|cs|, i requires 0 <= i < |cs| => FromRaw(cs[i])), collapsed)
  }

  /** The copy loses nothing: ids, names, flags, and the children in order, at every level. */
  lemma {:induction false} FromToRaw(t: Node)
    ensures FromRaw(ToRaw(t)) == t
    decreases t
  {
    forall i | 0 <= i < |t.children| ensures FromRaw(ToRaw(t.children[i])) == t.children[i] {
      FromToRaw(t.children[i]);
    }
    assert FromRaw(ToRaw(t)).children == t.children;
  }

  // ---------------------------------------------------------------------------------------
  // wrapWords

  /** The loop state of `wrapWords`: the finished lines and the line being filled. */
  datatype Wrap = Wrap(lines: seq<string>, current: string)

  /** One iteration: add `w` to the current line, or start a new line with it. */
  function WrapStep(s: Wrap, w: string, maxChars: nat): (r: Wrap)
    ensures r.current == w || r.current == s.current + " " + w
    ensures r.lines == s.lines || r.lines == s.lines + [s.current]
    ensures |r.current| <= maxChars || r.current == w
  {
    var tentative := if s.current != [] then s.current + " " + w else w;
    if |tentative| > maxChars then
      Wrap(if s.current != [] then s.lines + [s.current] else s.lines, w)
    else
      Wrap(s.lines, tentative)
  }

  /** The state after the first `n` words. */
  function WrapUpTo(words: seq<string>, n: nat, maxChars: nat): Wrap
    requires n <= |words|
  {
    if n == 0 then Wrap([], []) else WrapStep(WrapUpTo(words, n - 1, maxChars), words[n - 1], maxChars)
  }

  /** The last line is emitted only if it is not empty. */
  function Finish(s: Wrap): seq<string> {
    if s.current != [] then s.lines + [s.current] else s.lines
  }

  /** The lines `wrapWords(text, maxChars)` returns. */
  function Wrapped(text: string, maxChars: nat): seq<string> {
    var words := SplitWs(text);
    Finish(WrapUpTo(words, |words|, maxChars))
  }

  /** `wrapWords`, with its loop over the words of `text.split(/\s+/)`. */
  method WrapWords(text: string, maxChars: nat) returns (lines: seq<string>)
    ensures lines == Wrapped(text, maxChars)
  {
    var words := SplitWs(text);
    lines := [];
    var current: string := [];
    for i := 0 to |words|
      invariant Wrap(lines, current) == WrapUpTo(words, i, maxChars)
    {
      var w := words[i];
      var tentative := if current != [] then current + " " + w else w;
      if |tentative| > maxChars {
        if current != [] {
          lines := lines + [current];
        }
        current := w;
      } else {
        current := tentative;
      }
    }
    if current != [] {
      lines := lines + [current];
    }
  }

  /** Every line so far is non-empty and fits, unless it is one word that alone is too long. */
  lemma {:induction false} WrapUpToBounds(words: seq<string>, n: nat, maxChars: nat)
    requires n <= |words|
    ensures var s := WrapUpTo(words, n, maxChars);
      && (forall k :: 0 <= k < |s.lines| ==> s.lines[k] != [])
      && (forall k :: 0 <= k < |s.lines| ==> |s.lines[k]| <= maxChars || s.lines[k] in words)
      && (|s.current| <= maxChars || s.current in words)
  {
    if n > 0 {
      WrapUpToBounds(words, n - 1, maxChars);
      assert words[n - 1] in words;
    }
  }

  /**
   * `wrapWords` never emits an empty line, and a line longer than `maxChars` is a single
   * word of the text (it holds no whitespace).
   */
  lemma WrappedBounds(text: string, maxChars: nat)
    ensures forall k :: 0 <= k < |Wrapped(text, maxChars)| ==> Wrapped(text, maxChars)[k] != []
    ensures forall k :: 0 <= k < |Wrapped(text, maxChars)| ==>
      |Wrapped(text, maxChars)[k]| <= maxChars ||
      (Wrapped(text, maxChars)[k] in SplitWs(text) && NoWs(Wrapped(text, maxChars)[k]))
  {
    var words := SplitWs(text);
    WrapUpToBounds(words, |words|, maxChars);
    SplitWsNoWs(text, 0);
  }

  lemma JoinSnoc(xs: seq<string>, y: string, sep: string)
    requires xs != []
    ensures Join(xs + [y], sep) == Join(xs, sep) + sep + y
  {
    assert (xs + [y])[..|xs|] == xs;
  }

  /** With non-empty words, the lines joined by spaces are the words joined by spaces. */
  lemma {:induction false} WrapUpToJoin(words: seq<string>, n: nat, maxChars: nat)
    requires 1 <= n <= |words| && forall k :: 0 <= k < |words| ==> words[k] != []
    ensures WrapUpTo(words, n, maxChars).current != []
    ensures var s := WrapUpTo(words, n, maxChars); Join(s.lines + [s.current], " ") == Join(words[..n], " ")
  {
    if n > 1 {
      WrapUpToJoin(words, n - 1, maxChars);
      var w := words[n - 1];
      assert words[..n] == words[..n - 1] + [w];
      JoinSnoc(words[..n - 1], w, " ");
      WrapStepJoin(WrapUpTo(words, n - 1, maxChars), w, maxChars);
    } else {
      assert words[..1] == [words[0]];
    }
  }

  /** One step of the wrapper adds ` w` to the lines joined by spaces. */
  lemma WrapStepJoin(s: Wrap, w: string, maxChars: nat)
    requires s.current != [] && w != []
    ensures WrapStep(s, w, maxChars).current != []
    ensures var t := WrapStep(s, w, maxChars);
      Join(t.lines + [t.current], " ") == Join(s.lines + [s.current], " ") + " " + w
  {
    if |s.current + " " + w| > maxChars {
      JoinSnoc(s.lines + [s.current], w, " ");
    } else if s.lines != [] {
      JoinSnoc(s.lines, s.current, " ");
      JoinSnoc(s.lines, s.current + " " + w, " ");
    }
  }

  /**
   * For text without leading or trailing whitespace no word is lost or reordered: joining
   * the lines with spaces gives the words joined with spaces.
   */
  lemma WrappedKeepsWords(text: string, maxChars: nat)
    requires NoEdgeWs(text)
    ensures Join(Wrapped(text, maxChars), " ") == Join(SplitWs(text), " ")
  {
    var words := SplitWs(text);
    if text != [] {
      SplitWsWordsNonEmpty(text, 0);
      WrapUpToJoin(words, |words|, maxChars);
      assert words[..|words|] == words;
    } else {
      WrappedEmpty(maxChars);
    }
  }

  /** Empty text gives no lines. */
  lemma WrappedEmpty(maxChars: nat)
    ensures Wrapped([], maxChars) == []
  {
    assert SplitWs([]) == [[]];
    assert WrapUpTo([[]], 1, maxChars) == WrapStep(Wrap([], []), [], maxChars);
  }

  // ---------------------------------------------------------------------------------------
  // renderNode

  const LineHeight: nat := 18
  const MinHeight: nat := 44
  const LabelWidth: nat := 24

  /** `Math.max(44, lines.length * lineH + 18)`. */
  function BoxHeight(lineCount: nat): (h: nat)
    ensures h >= MinHeight && h >= lineCount * LineHeight + 18
    ensures h == if lineCount <= 1 then MinHeight else lineCount * LineHeight + 18
  {
    if lineCount * LineHeight + 18 > MinHeight then lineCount * LineHeight + 18 else MinHeight
  }

  /** The height of the box drawn for a node's label, wrapped at the default 24 characters. */
  method NodeHeight(name: string) returns (h: nat)
    ensures h == BoxHeight(|Wrapped(name, LabelWidth)|) && h >= MinHeight
  {
    var lines := WrapWords(name, LabelWidth);
    h := BoxHeight(|lines|);
  }

  /** `Array.isArray(nodeDatum.children) && nodeDatum.children.length > 0`. */
  predicate HasChildren(r: RawNode) {
    match r.children
    case Present(cs) => |cs| > 0
    case Absent => false
  }

  /** A click toggles a node of the view exactly when it is expanded and has children. */
  lemma ClickToggles(t: Node, c: set<string>)
    ensures HasChildren(ToRaw(App.ApplyCollapsed(t, c))) <==> t.id !in c && |t.children| > 0
  {
  }
}
