# Genealogy outline model

This project is a Dafny model of the core of a small family-tree viewer. A family tree is kept
as a Markdown bullet outline. Two copies of one parser turn it into a JSON tree of
`{ id, name, children, collapsed? }` nodes:

- `src/parseMarkdownTree.ts` is the copy the web app uses;
- `scripts/build-json.js` is the copy that writes the JSON artifact.

A React app loads that tree and keeps a set of collapsed ids. It draws the tree with
word-wrapped node labels. A Python utility cuts sub-trees out of the JSON, and a Node script
upper-cases every `name` string.

The model is split into modules:

- `Text` covers the string primitives: JavaScript `\s`, `trim`, `split(/\s+/)`, `split(/\r?\n/)` and joining.
- `Decimal` covers the decimal spelling of counters.
- `Trees` defines the node datatype from `src/types.ts`, pre-order node and id lists, and paths.
- `Outline` models the TypeScript parser. Its loop is a method over an arena of node records
  with the ancestor stack. The method is proved equal to a declarative tree, `OutlineTree`,
  built from the parent rule: a bullet's parent is the last earlier bullet with depth at most
  d-1, provided its depth is exactly d-1.
- `OutlineIds` proves what that tree holds. A bullet's node is present exactly when the bullet
  is attached, and ids are unique.
- `BuildJson` models the script's parser. It is proved to return the same `OutlineTree`, so
  the two copies agree on every document.
- `App` holds the component's pure helpers and an `AppState` class for its state hooks.
- `TreeView` holds the widget copy, `wrapWords`, the box height and the click test.
- `ExtractSubtree` holds the Python queries.
- `UppercaseNames` models the JSON rewrite.

Case mapping (`str.lower`, `toLocaleUpperCase('vi-VN')`) is passed in as a function parameter,
and nothing is assumed about it except where a lemma states it. Reading and writing files,
`fetch`, the command lines and `console.log` are not modelled.

cleanLabel is not idempotent: `CleanLabelNotIdempotent` exhibits `"* *a"`, which cleans to
`"*a"`, and that cleans again to `"a"`. The model follows the code here, not a reading in
which cleaning twice is the same as cleaning once.

## Model

| member | source | states |
|---|---|---|
| Text.Trim | src/parseMarkdownTree.ts:4-5 | `trim()` and the replace of leading and trailing `\s+`: the result has no whitespace at either end and is no longer than the input |
| Text.SplitLines | src/parseMarkdownTree.ts:9 | `split(/\r?\n/)` always yields at least one line (`""` yields `[""]`) |
| Text.SplitWs | src/TreeView.tsx:42 | `split(/\s+/)` always yields at least one piece (`""` yields `[""]`) |
| Text.TrimSpec | src/parseMarkdownTree.ts:4 | stripping `^\s+` and `\s+$` leaves a middle slice with exactly the surrounding whitespace removed: everything before and after it is whitespace and its ends are not |
| Text.SplitLinesNoNewline | src/parseMarkdownTree.ts:9 | no line produced by `split(/\r?\n/)` contains a line feed |
| Text.SplitLinesJoin | src/parseMarkdownTree.ts:9 | for a document with no carriage return, joining the lines with `"\n"` gives back the document |
| Text.SplitWsNoWs | src/TreeView.tsx:42 | no word produced by `split(/\s+/)` contains whitespace |
| Text.SplitWsKeepsText | src/TreeView.tsx:42 | the words concatenated are the non-whitespace characters of the text, in order |
| Text.SplitWsWordsNonEmpty | src/TreeView.tsx:42 | for text without whitespace at either end (and not empty), every word is non-empty |
| Decimal.ParseStr | src/parseMarkdownTree.ts:16 | reading back the decimal spelling of a counter gives the counter |
| Decimal.StrInjective | src/parseMarkdownTree.ts:16 | different counters are spelled differently |
| Decimal.ParseZeroPadded | python/extract_subtree.py:63 | `int()` of a digit string ignores leading zeros |
| Outline.MatchBullet | src/parseMarkdownTree.ts:20-21 | `line.match(/^(\s*)-\s+(.*)$/)`: on a match, the indent, the `-`, at least one whitespace character and the label fit inside the line |
| Outline.MatchBulletSound | src/parseMarkdownTree.ts:20-21 | a matched line is whitespace indent, `-`, at least one whitespace character, then a label with no line terminator; the indent and the second capture are those parts |
| Outline.MatchBulletUnique | src/parseMarkdownTree.ts:20-21 | any line of that layout matches, with exactly that indent and capture (the greedy `\s+` leaves no leading whitespace in the capture) |
| Outline.MatchBulletComplete | src/parseMarkdownTree.ts:20-21 | whitespace, `-`, whitespace, then no line terminator: such a line matches, with that indent |
| Outline.DepthOf | src/parseMarkdownTree.ts:22-23 | the depth d is `floor(indent / 2)`: `2d <= indent < 2d + 2` |
| Outline.DropDoubleStars | src/parseMarkdownTree.ts:5 | `replace(/\*\*/g, '')` never lengthens the label and keeps a first character that is not an asterisk |
| Outline.DropDoubleStarsKeeps | src/parseMarkdownTree.ts:5 | the first replace removes asterisks only: taking the asterisks out of the result and out of the input gives the same text, so every other character survives in order |
| Outline.StripOuterStarsKeeps | src/parseMarkdownTree.ts:5 | the replace of one leading and one trailing `*` removes asterisks only: the text without asterisks is unchanged |
| Outline.StripOuterStars | src/parseMarkdownTree.ts:5 | the replace of one leading and one trailing `*` removes nothing but at most the first and the last character |
| Outline.DropDoubleStarsPlain | src/parseMarkdownTree.ts:5 | a prefix without asterisks passes `replace(/\*\*/g, '')` unchanged |
| Outline.DropDoubleStarsNone | src/parseMarkdownTree.ts:5 | a string with no `**` passes the first replace unchanged |
| Outline.DropDoubleStarsClean | src/parseMarkdownTree.ts:5 | no `**` is left after the first replace |
| Outline.StripOuterStarsClean | src/parseMarkdownTree.ts:5 | removing one asterisk at each end creates no `**` |
| Outline.CleanLabel | src/parseMarkdownTree.ts:3-6 | a cleaned label has no whitespace at either end |
| Outline.CleanLabelClean | src/parseMarkdownTree.ts:3-6 | a cleaned label has no edge whitespace and no `**` anywhere |
| Outline.CleanLabelKeeps | src/parseMarkdownTree.ts:3-6 | cleaning removes only asterisks and edge whitespace: the trimmed label without its asterisks is the cleaned label without its asterisks, between two runs of whitespace |
| Outline.TrimKeeps | src/parseMarkdownTree.ts:5 | the final `trim()` removes only whitespace at the two ends, even after the asterisks are taken out |
| Outline.CleanLabelPlain | src/parseMarkdownTree.ts:3-6 | a label already trimmed, without `**` and without an asterisk at either end, is kept as is |
| Outline.CleanLabelBold | src/parseMarkdownTree.ts:3-6 | a bold label `**name**` (name trimmed and without asterisks) cleans to the name |
| Outline.CleanLabelNotIdempotent | src/parseMarkdownTree.ts:3-6 | cleaning twice differs from cleaning once: `"* *a"` gives `"*a"`, then `"a"` |
| Outline.CollectPrefix | src/parseMarkdownTree.ts:19-21 | the bullets of the first i lines are a prefix of those of the first n lines; non-bullet lines are skipped |
| Outline.LastAtMost | src/parseMarkdownTree.ts:29-34 | the found bullet has depth at most e and every later bullet before n is deeper; None means every bullet before n is deeper |
| Outline.ParentOf | src/parseMarkdownTree.ts:29-31 | a parent comes earlier and is exactly one level up |
| Outline.ParentRule | src/parseMarkdownTree.ts:29-34 | j is k's parent exactly when j < k, j is one level up, and every bullet between them is at least as deep as k |
| Outline.KidsNone | src/parseMarkdownTree.ts:31 | no bullet up to p is a child of p |
| Outline.KidsUpToSpec | src/parseMarkdownTree.ts:31 | a node's children are exactly the later bullets whose parent it is, each once, in document order |
| Outline.RootsUpToSpec | src/parseMarkdownTree.ts:27-28 | `roots` holds exactly the depth-0 bullets, each once, in document order |
| Outline.StackOf | src/parseMarkdownTree.ts:33-34 | the stack after n bullets is one longer than the last bullet's depth; slot e holds the last bullet of depth at most e when its depth is exactly e, and a hole otherwise |
| Outline.SetSlot | src/parseMarkdownTree.ts:33 | writing `stack[i]` past the end extends the array with holes; other slots are unchanged |
| Outline.StackFindsParent | src/parseMarkdownTree.ts:30-31 | reading `stack[depth - 1]` yields exactly the parent the rule prescribes, or nothing |
| Outline.StackStep | src/parseMarkdownTree.ts:33-34 | writing the bullet into its slot and truncating gives the stack of the rule after that bullet |
| Outline.KidsStep | src/parseMarkdownTree.ts:26-31 | creating a node with no children and pushing it into its parent's list gives the children of the rule after that bullet |
| Outline.LinkNode | src/parseMarkdownTree.ts:27-32 | pushing to `roots` or into the parent keeps the children and roots equal to the rule's |
| Outline.PushNode | src/parseMarkdownTree.ts:33-34 | the updated stack is the rule's, has length depth + 1 and holds the node on top |
| Outline.AddNode | src/parseMarkdownTree.ts:22-34 | one bullet adds the id `n<id+1>`, its cleaned label, its attachment and its stack slot, and keeps the whole state equal to the rule's |
| Outline.ParseLine | src/parseMarkdownTree.ts:19-35 | a non-bullet line changes nothing; a bullet line adds one node with the next id and its cleaned label |
| Outline.ParseLines | src/parseMarkdownTree.ts:10-35 | after the loop the node records, children lists and roots are those the parent rule gives for all bullets |
| Outline.ArenaTree | src/parseMarkdownTree.ts:37-38 | definition: the only root node when there is exactly one, else a `root` / `Phả hệ` node whose children are the roots in order; each node carries what was pushed into it |
| Outline.OutlineTree | src/parseMarkdownTree.ts:8-39 | definition: the tree the parent rule gives for the bullets of the document, with the generated ids and cleaned labels |
| Outline.ParseMarkdownTree | src/parseMarkdownTree.ts:8-39 | the function returns the declarative tree of the document |
| OutlineIds.IdOfInjective | src/parseMarkdownTree.ts:14-17 | two nodes get the same id exactly when they are the same call of makeNode |
| OutlineIds.IdOfNotRoot | src/parseMarkdownTree.ts:38 | no generated id equals the synthetic root's `root` |
| OutlineIds.GeneratedIdsDistinct | src/parseMarkdownTree.ts:14-17 | the n-th node made is `n<n>` and no two nodes share an id |
| OutlineIds.BelowLinear | src/parseMarkdownTree.ts:29-31 | any two ancestors of a bullet are related: one is an ancestor of the other |
| OutlineIds.AttachedBelowRoot | src/parseMarkdownTree.ts:27-31 | a bullet is attached exactly when some depth-0 bullet is its ancestor |
| OutlineIds.DroppedTakesDescendants | src/parseMarkdownTree.ts:31 | a bullet that finds no parent slot is dropped together with everything below it |
| OutlineIds.SubHolds | src/parseMarkdownTree.ts:26-31 | a bullet's id is in another bullet's subtree exactly when that bullet is it or one of its ancestors |
| OutlineIds.SubNoDup | src/parseMarkdownTree.ts:14-31 | no id occurs twice in a bullet's subtree |
| OutlineIds.TreeShape | src/parseMarkdownTree.ts:37-38 | one top-level bullet gives its own node; otherwise a `root` / `Phả hệ` node holds one subtree per top-level bullet, in order |
| OutlineIds.SingleRoot | src/parseMarkdownTree.ts:37 | with exactly one depth-0 bullet, the tree is that bullet's node |
| OutlineIds.NoBullets | src/parseMarkdownTree.ts:38 | a document without bullets gives the synthetic root with no children |
| OutlineIds.TreeHoldsAttached | src/parseMarkdownTree.ts:19-38 | a bullet's id is in the tree exactly when the bullet is attached |
| OutlineIds.TreeIdsDistinct | src/parseMarkdownTree.ts:12-38 | no id occurs twice in the tree of any document |
| BuildJson.MakeNode | scripts/build-json.js:14 | the pre-increment gives the next id, `n<id+1>`, a new node with no children, and leaves roots and stack alone |
| BuildJson.MakeEntryNode | scripts/build-json.js:14 | the created node is the next bullet's, with the rule's ids and names |
| BuildJson.Attach | scripts/build-json.js:24-29 | the push to `roots` or into the parent found at `stack[depth - 1]` gives the rule's roots and children |
| BuildJson.Truncate | scripts/build-json.js:30-31 | the write and the truncation give the rule's stack: length depth + 1, the node on top |
| BuildJson.AddBullet | scripts/build-json.js:22-31 | one bullet moves the parser state from the rule after n bullets to the rule after n + 1 |
| BuildJson.ReadLine | scripts/build-json.js:16-32 | a non-bullet line leaves the state unchanged; a bullet line adds exactly one node |
| BuildJson.ParseMarkdownTree | scripts/build-json.js:9-35 | the script's parser returns the same tree as the TypeScript parser, on every document |
| App.SetAllCollapsed | src/App.tsx:5-11 | the copy keeps the id and name and the number of children, and sets `collapsed` to the value |
| App.SetAllCollapsedSpec | src/App.tsx:5-11 | every node of the copy is flagged with the value; without flags the copy is the tree (same ids, names, shape) |
| App.CollectIds | src/App.tsx:30-34 | the accumulator grows by the pre-order ids of the tree |
| App.Toggled | src/App.tsx:48-56 | the flipped id is in the new set exactly when it was not in the old one; other ids keep their membership |
| App.ToggleTwice | src/App.tsx:48-56 | toggling an id twice restores the set |
| App.ApplyCollapsed | src/App.tsx:61-67 | a collapsed node keeps its fields and loses its children; an expanded one keeps them all |
| App.ApplyCollapsedShows | src/App.tsx:61-67 | the view has exactly the paths whose nodes before the end are not collapsed; at each such path it shows applyCollapsed of the original node |
| App.ApplyNothing | src/App.tsx:61-67 | with no collapsed id the view is the tree |
| App.AppState.constructor | src/App.tsx:14-17 | no tree, no collapsed ids, `viewKey` 1, `initialDepth` 99 |
| App.AppState.Load | src/App.tsx:22-24 | `setTree(obj)` stores the tree and changes nothing else |
| App.AppState.Disabled | src/App.tsx:28 | the buttons are disabled exactly while no tree is loaded |
| App.AppState.OnCollapseAll | src/App.tsx:35-40 | while disabled (no tree) nothing changes; otherwise `initialDepth` is 0 and `viewKey` goes up by one; the tree and the collapsed set are kept |
| App.AppState.OnExpandAll | src/App.tsx:41-46 | while disabled (no tree) nothing changes; otherwise `initialDepth` is 99 and `viewKey` goes up by one; the tree and the collapsed set are kept |
| App.AppState.ToggleId | src/App.tsx:48-56 | the collapsed set becomes the toggled set; nothing else changes |
| App.AppState.ViewData | src/App.tsx:69 | a view exists exactly when a tree is loaded, and it is `applyCollapsed` of the tree under the current collapsed set |
| TreeView.ToRaw | src/TreeView.tsx:12-19 | the widget node keeps id, name and flag, and always has a children array of the same length |
| TreeView.FromToRaw | src/TreeView.tsx:12-19 | the widget copy loses nothing: reading it back gives the tree |
| TreeView.WrapStep | src/TreeView.tsx:46-52 | one word either extends the current line by a space and the word or starts a new line with it, flushing the old one; the current line fits unless it is just the word |
| TreeView.Wrapped | src/TreeView.tsx:41-56 | definition: the greedy wrap of the words of `split(/\s+/)`, with a non-empty last line emitted at the end |
| TreeView.WrapWords | src/TreeView.tsx:41-56 | the loop returns the lines of the greedy wrapping specification |
| TreeView.WrapUpToBounds | src/TreeView.tsx:45-53 | during the loop every finished line is non-empty, and each line fits or is a single word |
| TreeView.WrappedBounds | src/TreeView.tsx:41-56 | no line is empty; a line longer than `maxChars` is one word of the text, with no whitespace |
| TreeView.WrappedKeepsWords | src/TreeView.tsx:41-56 | for text without edge whitespace, the lines joined with spaces are the words joined with spaces: no word is lost, split or moved |
| TreeView.WrappedEmpty | src/TreeView.tsx:41-56 | empty text gives no lines |
| TreeView.BoxHeight | src/TreeView.tsx:59-62 | the height is at least 44 and at least 18 per line plus 18; one line or none gives 44 |
| TreeView.NodeHeight | src/TreeView.tsx:59-62 | a node's box height comes from its label wrapped at 24 characters, and is never below 44 |
| TreeView.HasChildren | src/TreeView.tsx:64 | definition: the widget node has a children array and it is not empty |
| TreeView.ClickToggles | src/TreeView.tsx:64-68 | a click toggles a node of the view exactly when it is not collapsed and has children |
| ExtractSubtree.FindSubtree | python/extract_subtree.py:5-12 | a returned node matches, and a matching node returns itself |
| ExtractSubtree.FindIn | python/extract_subtree.py:8-11 | a node found among the children matches |
| ExtractSubtree.FindPath | python/extract_subtree.py:15-22 | a found path starts at the node and ends at a matching node |
| ExtractSubtree.PathIn | python/extract_subtree.py:18-21 | a path found among the children is non-empty, starts at one of them and ends at a matching node |
| ExtractSubtree.FindDepth | python/extract_subtree.py:79-86 | a found depth is at least the start depth, and a matching node gives the start depth |
| ExtractSubtree.DepthIn | python/extract_subtree.py:82-85 | a depth found among the children is at least the depth passed to them |
| ExtractSubtree.FirstMatch | python/extract_subtree.py:8-11 | the found index matches and every earlier node does not; None means no node matches |
| ExtractSubtree.FirstMatchingConcat | python/extract_subtree.py:8-11 | the first match in `a + b` is a's if a has one, else b's |
| ExtractSubtree.FindSubtreeFirst | python/extract_subtree.py:5-12 | `find_subtree` returns the first matching node in pre-order, or None |
| ExtractSubtree.FindPathSpec | python/extract_subtree.py:15-22 | `find_path` finds a path exactly when `find_subtree` finds a node; the path descends one child at a time from the root and ends at that node |
| ExtractSubtree.FindDepthSpec | python/extract_subtree.py:79-86 | `find_depth` succeeds exactly when `find_path` does, and it returns the start depth plus the path length minus one |
| ExtractSubtree.FindDepthIsPathLength | python/extract_subtree.py:79-88 | searched from the root, a depth is found exactly when a node is, and it is the path length minus one |
| ExtractSubtree.BuildPathTree | python/extract_subtree.py:25-36 | the chain has one fresh dict per path node with its id and name; each has the next as its only child, and the last has none |
| ExtractSubtree.LStripN | python/extract_subtree.py:63 | the result is a suffix, every removed character is `n`, and the result does not start with `n` |
| ExtractSubtree.IdNum | python/extract_subtree.py:61-65 | an id that is only `n`s reads as 0; a non-empty run of digits after the leading `n`s reads as its decimal value; anything else after the `n`s reads as 0; a positive value always comes from such a digit run |
| ExtractSubtree.IdNumZeroPadded | python/extract_subtree.py:63 | zero padding after the `n` does not change the number: `n` followed by z zeros and the spelling of k reads as k (`"n007"` reads as 7) |
| ExtractSubtree.IdNumOfGenerated | python/extract_subtree.py:61-65 | every id the parsers generate reads back as its counter and `root` reads as 0 |
| ExtractSubtree.Kept | python/extract_subtree.py:72-74 | one child adds at most one copy, none exactly when its id number exceeds the bound, and the copy has the child's id |
| ExtractSubtree.FilteredKids | python/extract_subtree.py:71-74 | the loop keeps at most as many children as there are |
| ExtractSubtree.Filtered | python/extract_subtree.py:67-75 | a node is dropped exactly when its id number exceeds the bound; a kept copy has its id and name and no flag |
| ExtractSubtree.FilterTree | python/extract_subtree.py:67-75 | the loop returns the filtered copy |
| ExtractSubtree.FilteredBound | python/extract_subtree.py:67-75 | every node in the result has an id number within the bound |
| ExtractSubtree.FilteredIdsOrder | python/extract_subtree.py:67-75 | the result's ids are the original ids with some left out, in the same order |
| ExtractSubtree.FilteredKidsSkip | python/extract_subtree.py:71-74 | a dropped child leaves only the copies of the children before and after it |
| ExtractSubtree.DroppedChildAbsent | python/extract_subtree.py:67-75 | in a tree with distinct ids, a dropped child's whole subtree is missing from the result |
| ExtractSubtree.DroppedNodeAbsent | python/extract_subtree.py:67-75 | in a tree with distinct ids, a node dropped at any depth takes its whole subtree out of the result |
| ExtractSubtree.FilteredKeepsExactly | python/extract_subtree.py:67-75 | in a tree with distinct ids, a node is in the result exactly when it and every ancestor have an id number within the bound |
| ExtractSubtree.FilteredKeepsAll | python/extract_subtree.py:67-75 | when every id is within the bound, the result is the whole tree without flags |
| ExtractSubtree.Pruned | python/extract_subtree.py:93-99 | the copy keeps id and name; at or past the target depth it has no children, above it one copy per child |
| ExtractSubtree.PruneByDepth | python/extract_subtree.py:93-99 | the loop returns the pruned copy |
| ExtractSubtree.PrunedPaths | python/extract_subtree.py:93-99 | the pruned tree has exactly the original paths that end at most target minus cur levels down, with the same ids and names |
| UppercaseNames.Uppercase | scripts/uppercase-json-names.js:5-21 | a string stays a string, unchanged at top level, and nothing else becomes one |
| UppercaseNames.UppercaseField | scripts/uppercase-json-names.js:12-16 | each member keeps its key |
| UppercaseNames.Put | scripts/uppercase-json-names.js:13-15 | `out[k] = v` stores the member; with a new key it is appended at the end |
| UppercaseNames.PutOverwrites | scripts/uppercase-json-names.js:13-15 | with an existing key, that member's value is replaced in place and the rest is unchanged |
| UppercaseNames.UppercaseNamesMethod | scripts/uppercase-json-names.js:5-21 | the recursive method returns the transformation of any value `JSON.parse` can give |
| UppercaseNames.MapItems | scripts/uppercase-json-names.js:6-8 | an array is mapped element by element |
| UppercaseNames.RebuildObject | scripts/uppercase-json-names.js:9-18 | the loop over `Object.entries` rebuilds the object member by member, in order |
| UppercaseNames.PutField | scripts/uppercase-json-names.js:12-16 | one iteration appends the transformed member, because keys are distinct |
| UppercaseNames.UppercaseOnlyNames | scripts/uppercase-json-names.js:5-21 | the result differs from the input only in strings under `name` keys: same kinds, lengths, keys and key order, and every other scalar is kept |
| UppercaseNames.UppercaseObject | scripts/uppercase-json-names.js:9-18 | an object keeps its key list, and each string under `name` becomes its upper case |
| UppercaseNames.UppercaseWellFormed | scripts/uppercase-json-names.js:9-18 | no duplicated keys in gives no duplicated keys out |
| UppercaseNames.UppercaseIdentity | scripts/uppercase-json-names.js:5-21 | with a case mapping that changes nothing, the result is the input |
| UppercaseNames.UppercaseIdempotent | scripts/uppercase-json-names.js:5-21 | with an idempotent case mapping, applying the rewrite twice is the same as once |

## Left out

- File and network I/O, command-line parsing and logging are not modelled. This covers `readFileSync`/`writeFileSync` in scripts/build-json.js:37-42, `main` in scripts/uppercase-json-names.js:23-37, `main` and the mode dispatch in python/extract_subtree.py:39-109, the `fetch` in src/App.tsx:19-26, and every `console.log`. Each query is modelled on a tree value.
- The react-d3-tree widget and the `translate` measuring in src/TreeView.tsx:28-37 are not modelled. Neither are the logging, styles and JSX at src/TreeView.tsx:63 and 65-96, apart from the click condition at :68, which ClickToggles models. The label wrap and box height at :59-62 and `hasChildren` at :64 are modelled. python/run.py is not part of this model.
- `initialDepth` and `viewKey` are modelled as the state values the component passes to the widget. How the widget interprets them is library code.
- The `onToggle` handler (src/App.tsx:57-59) is handed to the view but never called there, because a click calls the widget's own `toggleNode`. ClickToggles models only the condition under which the click toggles.
- `children` is a required array in src/types.ts, so the fallbacks for a missing array are not modelled: `?.map(...) || []`, `?.map`, `.get("children", [])`. `.get("name", "")` and `.get("id")` are modelled as the field.
- ExtractSubtree.IdNum: models Python's `int()` only on a plain run of ASCII digits. Signs, surrounding whitespace, underscores and non-ASCII digits, which `int()` also accepts, read as 0 here. `str(...)` of a non-string id is not modelled, since ids are strings.
- Strings are sequences of Unicode scalar values. JavaScript `.length` counts UTF-16 code units, so label lengths in `wrapWords` agree only for text in the Basic Multilingual Plane.
- Python's `str.lower` and JavaScript's `toLocaleUpperCase('vi-VN')` are function parameters, with no Unicode case tables. `\s` is the character set JavaScript uses.
- ExtractSubtree.BuildPathTree: requires a non-empty path. The source indexes `path_list[0]`, which raises on an empty list, and its caller only calls it after `if not path`.
- The JavaScript parsers share node objects between `roots`, `stack` and the children arrays, and mutate them in place. The model holds those objects in an arena of seqs indexed by creation order and builds the tree at the end. Aliasing is therefore not modelled: each node is reachable once, as it is in the source.
- App.CollectIds: returns the grown accumulator instead of pushing into a shared array. It is never called in the component.
- UppercaseNames: JSON numbers keep their text and formatting is out of scope. `JSON.stringify` output (indentation, trailing newline) is not modelled.
- UppercaseNames: `Object.entries` order puts integer-like keys first, and the model keeps members in the given order. Assignment to a key `__proto__` on a plain object does not create an own property; the model treats it like any other key. Objects with duplicate keys, which `JSON.parse` never produces, are excluded by WellFormed.
- Input values are never mutated by the queries; with value types this holds by construction and is not a separate lemma.
