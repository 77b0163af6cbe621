/**
 * The second copy of the outline parser, in scripts/build-json.js, that turns the document
 * into the JSON artifact. Its `cleanLabel` (build-json.js:4-7) has the same text as the one in
 * src/parseMarkdownTree.ts and is `Outline.CleanLabel`. Its loop keeps the parser's locals in
 * one record and hands out ids through `makeNode` with a pre-increment. It is proved to return
 * `Outline.OutlineTree(md)`, so the two parsers agree on every input.
 */
module BuildJson {
  import opened Wrappers
  import opened Text
  import opened Trees
  import opened Outline
  import Decimal

  /**
   * The locals of `parseMarkdownTree`: the counter `id`, the node objects made so far (their
   * ids, names and pushed children, by creation order), `roots` and `stack`.
   */
  datatype State = State(id: nat, ids: seq<string>, names: seq<string>, kids: seq<seq<nat>>,
                         roots: seq<nat>, stack: seq<Option<nat>>)

  /** The state after the first `n` bullets of `es`, as the parent rule describes it. */
  predicate After(st: State, es: seq<Entry>, n: nat) {
    && n <= |es| && st.id == n
    && st.ids == SpecIds(n) && st.names == SpecNames(es, n) && st.kids == SpecKids(es, n)
    && st.roots == RootsUpTo(es, n) && st.stack == StackOf(es, n)
  }

  /** `makeNode(name)`: `{ id: `n${++id}`, name, children: [] }`. */
  method MakeNode(st: State, name: string) returns (st': State, node: nat)
    ensures node == st.id && st'.id == st.id + 1
    ensures st'.ids == st.ids + ["n" + Decimal.Str(st'.id)] && st'.names == st.names + [name]
    ensures st'.kids == st.kids + [[]] && st'.roots == st.roots && st'.stack == st.stack
  {
    node := st.id;
    var id := st.id + 1;
    st' := st.(id := id, ids := st.ids + ["n" + Decimal.Str(id)], names := st.names + [name],
               kids := st.kids + [[]]);
  }

  /** Making the next node of the bullet list keeps the ids and names in step with it. */
  method MakeEntryNode(ghost es: seq<Entry>, st: State, cleaned: string) returns (st': State, node: nat)
    requires After(st, es, st.id) && st.id < |es| && es[st.id].name == cleaned
    ensures node == st.id && st'.id == st.id + 1
    ensures st'.ids == SpecIds(node + 1) && st'.names == SpecNames(es, node + 1)
    ensures st'.kids == SpecKids(es, node) + [[]] && st'.roots == st.roots && st'.stack == st.stack
  {
    IdsStep(st.id);
    NamesStep(es, st.id);
    st', node := MakeNode(st, cleaned);
  }

  /** Lines 24-29: push to `roots`, or to `stack[depth - 1]` if that slot holds a node. */
  method Attach(ghost es: seq<Entry>, st: State, node: nat, depth: nat) returns (st': State)
    requires node < |es| && es[node].depth == depth
    requires st.kids == SpecKids(es, node) + [[]]
    requires st.roots == RootsUpTo(es, node) && st.stack == StackOf(es, node)
    ensures st'.kids == SpecKids(es, node + 1) && st'.roots == RootsUpTo(es, node + 1)
    ensures st'.id == st.id && st'.ids == st.ids && st'.names == st.names && st'.stack == st.stack
  {
    KidsStep(es, node);
    st' := st;
    if depth == 0 {
      st' := st.(roots := st.roots + [node]);
    } else {
      var parent := ReadSlot(st.stack, depth - 1);
      StackFindsParent(es, node);
      if parent.Some? {
        var p := parent.value;
        st' := st.(kids := st.kids[p := st.kids[p] + [node]]);
      }
    }
  }

  /** Lines 30-31: `stack[depth] = node; stack.length = depth + 1`. */
  method Truncate(ghost es: seq<Entry>, st: State, node: nat, depth: nat) returns (st': State)
    requires node < |es| && es[node].depth == depth && st.stack == StackOf(es, node)
    ensures st'.stack == StackOf(es, node + 1) && |st'.stack| == depth + 1
    ensures st'.stack[depth] == Some(node)
    ensures st'.id == st.id && st'.ids == st.ids && st'.names == st.names
    ensures st'.kids == st.kids && st'.roots == st.roots
  {
    StackStep(es, node);
    var stack := SetSlot(st.stack, depth, node);
    st' := st.(stack := stack[..depth + 1]);
  }

  /** A bullet line's work: make its node, attach it, and put it on the stack. */
  method AddBullet(ghost es: seq<Entry>, st: State, depth: nat, cleaned: string) returns (st': State)
    requires After(st, es, st.id) && st.id < |es| && es[st.id] == Entry(depth, cleaned)
    ensures After(st', es, st.id + 1)
  {
    var node;
    st', node := MakeEntryNode(es, st, cleaned);
    st' := Attach(es, st', node, depth);
    st' := Truncate(es, st', node, depth);
  }

  /** The body of the `for (const line of lines)` loop. */
  method ReadLine(lines: seq<string>, ghost es: seq<Entry>, i: nat, st: State) returns (st': State)
    requires i < |lines| && es == DocLinesEntries(lines)
    requires After(st, es, st.id) && Collect(LineEntries(lines), i) == es[..st.id]
    ensures After(st', es, st'.id) && Collect(LineEntries(lines), i + 1) == es[..st'.id]
    ensures MatchBullet(lines[i]).None? ==> st' == st
    ensures MatchBullet(lines[i]).Some? ==> st'.id == st.id + 1
  {
    CollectStep(LineEntries(lines), i, st.id);
    assert LineEntries(lines)[i] == EntryOf(lines[i]);
    var m := MatchBullet(lines[i]);
    if m.None? {
      return st;
    }
    var depth := DepthOf(m.value.indent);
    var cleaned := CleanLabel(m.value.raw);
    st' := AddBullet(es, st, depth, cleaned);
  }

  /** build-json.js's `parseMarkdownTree`: the same tree as src/parseMarkdownTree.ts. */
  method ParseMarkdownTree(md: string) returns (tree: Node)
    ensures tree == OutlineTree(md)
  {
    var lines := SplitLines(md);
    ghost var es := DocLinesEntries(lines);
    var st := State(0, [], [], [], [], []);
    for i := 0 to |lines|
      invariant After(st, es, st.id) && Collect(LineEntries(lines), i) == es[..st.id]
    {
      st := ReadLine(lines, es, i, st);
    }
    assert es[..st.id] == es;
    tree := ArenaTree(st.ids, st.names, st.kids, st.roots);
  }
}
