/**
 * The outline parser of src/parseMarkdownTree.ts: an indented `- label` bullet document
 * becomes a tree.
 *
 * The source builds the tree out of shared node objects: a node is pushed into its parent's
 * `children` (or into `roots`) as soon as it is created, and later lines push into it in turn.
 * This model keeps those objects in an arena: node `k` (the `k`-th bullet, counting from 0)
 * has its id in `ids[k]`, its label in `names[k]` and the arena indices of its children in
 * `kids[k]`; the ancestor stack holds arena indices, with `None` for the holes that
 * `stack[depth] = node` leaves in a JavaScript array. `Materialize` reads the finished arena
 * back as a tree value.
 *
 * `OutlineTree` is the declarative reading of the same document: the parent of a bullet
 * is the nearest earlier bullet one level up, provided no shallower bullet comes between
 * (`ParentOf`, `ParentRule`). `ParseMarkdownTree` is the stack-driven loop of the source and
 * is proved to produce exactly `OutlineTree`.
 */
module Outline {
  import opened Wrappers
  import opened Trees
  import opened Text
  import Decimal

  // ---------------------------------------------------------------------------------------
  // The line recogniser for /^(\s*)-\s+(.*)$/

  /** What the two capture groups of a matched line give: the indent length and `m[2]`. */
  datatype Bullet = Bullet(indent: nat, raw: string)

  predicate NoLineTerminator(s: string) {
    forall i :: 0 <= i < |s| ==> !IsLineTerminator(s[i])
  }

  /**
   * How a matched line is laid out: whitespace indentation, a dash, a non-empty whitespace
   * gap, then the label, which (the `\s+` being greedy) does not start with whitespace and
   * (`.` matching no line terminator, `$` only the end of the input) contains no line
   * terminator.
   */
  predicate BulletShape(line: string, b: Bullet) {
    && b.indent + 2 + |b.raw| <= |line|
    && (forall j :: 0 <= j < b.indent ==> IsWs(line[j]))
    && line[b.indent] == '-'
    && (forall j :: b.indent < j < |line| - |b.raw| ==> IsWs(line[j]))
    && line[|line| - |b.raw|..] == b.raw
    && NoLineTerminator(b.raw)
    && (b.raw == [] || !IsWs(b.raw[0]))
  }

  /** `line.match(/^(\s*)-\s+(.*)$/)`, with `None` for no match. */
  function MatchBullet(line: string): (r: Option<Bullet>)
    ensures r.Some? ==> r.value.indent + 2 + |r.value.raw| <= |line|
  {
    var lo := SkipWs(line, 0);
    if lo == |line| || line[lo] != '-' then None
    else
      var g := SkipWs(line, lo + 1);
      if g == lo + 1 || !NoLineTerminator(line[g..]) then None
      else Some(Bullet(lo, line[g..]))
  }

  /** A matched line has the layout of a bullet. */
  lemma MatchBulletSound(line: string)
    ensures MatchBullet(line).Some? ==> BulletShape(line, MatchBullet(line).value)
  {
    var lo := SkipWs(line, 0);
    SkipWsSpan(line, 0);
    if lo < |line| && line[lo] == '-' {
      SkipWsSpan(line, lo + 1);
    }
  }

  /** The layout determines the match: a line of that layout yields exactly that bullet. */
  lemma MatchBulletUnique(line: string, b: Bullet)
    requires BulletShape(line, b)
    ensures MatchBullet(line) == Some(b)
  {
    SkipWsSpan(line, 0);
    assert SkipWs(line, 0) == b.indent;
    var g := |line| - |b.raw|;
    if b.raw != [] {
      assert line[g] == b.raw[0];
    }
    SkipWsSpan(line, b.indent + 1);
    assert SkipWs(line, b.indent + 1) == g;
  }

  /**
   * Every line the regular expression matches in some way is matched: whitespace up to a
   * dash at `i`, at least one whitespace character after it, and no line terminator from `k`
   * on (the greedy `\s+` then takes the gap and possibly more).
   */
  lemma MatchBulletComplete(line: string, i: nat, k: nat)
    requires i + 1 < k <= |line|
    requires forall j :: 0 <= j < i ==> IsWs(line[j])
    requires line[i] == '-' && forall j :: i < j < k ==> IsWs(line[j])
    requires forall j :: k <= j < |line| ==> !IsLineTerminator(line[j])
    ensures MatchBullet(line).Some? && MatchBullet(line).value.indent == i
  {
    SkipWsSpan(line, 0);
    assert SkipWs(line, 0) == i;
    var g := SkipWs(line, i + 1);
    SkipWsSpan(line, i + 1);
    assert NoLineTerminator(line[g..]) by {
      forall j | 0 <= j < |line| - g ensures !IsLineTerminator(line[g..][j]) {
        assert line[g..][j] == line[g + j];
      }
    }
  }

  /** Bullet depth: `Math.floor(indent / 2)`; 2 and 3 leading spaces both give depth 1. */
  function DepthOf(indent: nat): (d: nat)
    ensures 2 * d <= indent < 2 * d + 2
  {
    indent / 2
  }

  // ---------------------------------------------------------------------------------------
  // cleanLabel

  predicate NoDoubleStar(s: string) {
    forall i :: 0 <= i < |s| - 1 ==> !(s[i] == '*' && s[i + 1] == '*')
  }

  /** The first replace of cleanLabel: every `**` pair goes, pairs found left to right. */
  function DropDoubleStars(s: string): (r: string)
    ensures |r| <= |s|
    ensures |s| > 0 && s[0] != '*' ==> |r| > 0 && r[0] == s[0]
  {
    if |s| < 2 then s
    else if s[0] == '*' && s[1] == '*' then DropDoubleStars(s[2..])
    else [s[0]] + DropDoubleStars(s[1..])
  }

  /** A prefix without asterisks passes the first replace unchanged. */
  lemma {:induction false} DropDoubleStarsPlain(a: string, b: string)
    requires forall i :: 0 <= i < |a| ==> a[i] != '*'
    ensures DropDoubleStars(a + b) == a + DropDoubleStars(b)
  {
    if a != [] {
      var ab := a + b;
      assert ab[0] == a[0] && ab[1..] == a[1..] + b;
      DropDoubleStarsPlain(a[1..], b);
      if |ab| >= 2 {
        assert DropDoubleStars(ab) == [a[0]] + DropDoubleStars(a[1..] + b);
      } else {
        assert b == [] && a == [a[0]];
      }
      assert a == [a[0]] + a[1..];
    } else {
      assert a + b == b;
    }
  }

  /** Without any `**`, the first replace changes nothing. */
  lemma {:induction false} DropDoubleStarsNone(s: string)
    requires NoDoubleStar(s)
    ensures DropDoubleStars(s) == s
  {
    if |s| >= 2 {
      assert NoDoubleStar(s[1..]) by {
        forall i | 0 <= i < |s| - 2 ensures !(s[1..][i] == '*' && s[1..][i + 1] == '*') {
          assert s[1..][i] == s[i + 1] && s[1..][i + 1] == s[i + 2];
        }
      }
      DropDoubleStarsNone(s[1..]);
    }
  }

  /** No `**` is left after the first replace. */
  lemma {:induction false} DropDoubleStarsClean(s: string)
    ensures NoDoubleStar(DropDoubleStars(s))
    decreases |s|
  {
    if |s| >= 2 {
      if s[0] == '*' && s[1] == '*' {
        DropDoubleStarsClean(s[2..]);
      } else {
        DropDoubleStarsClean(s[1..]);
      }
    }
  }

  /** The text with every asterisk taken out: what cleaning must leave alone. */
  function Unstarred(s: string): (r: string)
    ensures |r| <= |s|
    ensures forall i :: 0 <= i < |r| ==> r[i] != '*'
  {
    if s == [] then [] else (if s[0] == '*' then [] else [s[0]]) + Unstarred(s[1..])
  }

  lemma {:induction false} UnstarredConcat(a: string, b: string)
    ensures Unstarred(a + b) == Unstarred(a) + Unstarred(b)
  {
    if a == [] {
      assert a + b == b;
    } else {
      assert (a + b)[0] == a[0] && (a + b)[1..] == a[1..] + b;
      UnstarredConcat(a[1..], b);
    }
  }

  /** Text without asterisks is its own unstarred form. */
  lemma {:induction false} UnstarredPlain(a: string)
    requires forall i :: 0 <= i < |a| ==> a[i] != '*'
    ensures Unstarred(a) == a
  {
    if a != [] {
      UnstarredPlain(a[1..]);
    }
  }

  /** The first replace removes asterisks only: every other character stays, in order. */
  lemma {:induction false} DropDoubleStarsKeeps(s: string)
    ensures Unstarred(DropDoubleStars(s)) == Unstarred(s)
    decreases |s|
  {
    if |s| >= 2 {
      if s[0] == '*' && s[1] == '*' {
        DropDoubleStarsKeeps(s[2..]);
        assert s[1..][1..] == s[2..];
      } else {
        DropDoubleStarsKeeps(s[1..]);
        UnstarredConcat([s[0]], DropDoubleStars(s[1..]));
      }
    }
  }

  /** `s.replace(/^\*|\*$/g, '')`: one leading and one trailing asterisk go. */
  function StripOuterStars(s: string): (r: string)
    ensures |r| <= |s|
    ensures r == s || (|s| >= 1 && (r == s[1..] || r == s[..|s| - 1])) || (|s| >= 2 && r == s[1..|s| - 1])
  {
    var a := if |s| > 0 && s[0] == '*' then s[1..] else s;
    if |a| > 0 && a[|a| - 1] == '*' then a[..|a| - 1] else a
  }

  /** Dropping outer asterisks creates no `**`. */
  lemma StripOuterStarsClean(s: string)
    requires NoDoubleStar(s)
    ensures NoDoubleStar(StripOuterStars(s))
  {
    var a := if |s| > 0 && s[0] == '*' then s[1..] else s;
    assert NoDoubleStar(a) by {
      if a != s {
        forall i | 0 <= i < |a| - 1 ensures !(a[i] == '*' && a[i + 1] == '*') {
          assert a[i] == s[i + 1] && a[i + 1] == s[i + 2];
        }
      }
    }
  }

  /** Removing the outer asterisks removes asterisks only. */
  lemma StripOuterStarsKeeps(s: string)
    ensures Unstarred(StripOuterStars(s)) == Unstarred(s)
  {
    var a := if |s| > 0 && s[0] == '*' then s[1..] else s;
    if a != s {
      assert s == ['*'] + a;
      UnstarredConcat(['*'], a);
    }
    if |a| > 0 && a[|a| - 1] == '*' {
      assert a == a[..|a| - 1] + ['*'];
      UnstarredConcat(a[..|a| - 1], ['*']);
    }
  }

  /** cleanLabel: trim, drop `**` markers, drop one outer `*` at each end, trim again. */
  function CleanLabel(s: string): (r: string)
    ensures NoEdgeWs(r)
  {
    Trim(StripOuterStars(DropDoubleStars(Trim(s))))
  }

  lemma NoDoubleStarTrim(s: string)
    requires NoDoubleStar(s)
    ensures NoDoubleStar(Trim(s))
  {
    TrimSpec(s);
    var lo, t := TrimLo(s), Trim(s);
    forall i | 0 <= i < |t| - 1 ensures !(t[i] == '*' && t[i + 1] == '*') {
      assert t[i] == s[lo + i] && t[i + 1] == s[lo + i + 1];
    }
  }

  /**
   * Cleaning takes out asterisks and edge whitespace and nothing else: without its
   * asterisks, the trimmed label is the cleaned label's characters between two runs of
   * whitespace.
   */
  lemma CleanLabelKeeps(s: string) returns (pre: string, post: string)
    ensures forall i :: 0 <= i < |pre| ==> IsWs(pre[i])
    ensures forall i :: 0 <= i < |post| ==> IsWs(post[i])
    ensures Unstarred(Trim(s)) == pre + Unstarred(CleanLabel(s)) + post
  {
    var x := StripOuterStars(DropDoubleStars(Trim(s)));
    DropDoubleStarsKeeps(Trim(s));
    StripOuterStarsKeeps(DropDoubleStars(Trim(s)));
    pre, post := TrimKeeps(x);
  }

  /** Trimming takes whitespace off the ends only, seen through the unstarred form. */
  lemma TrimKeeps(x: string) returns (pre: string, post: string)
    ensures forall i :: 0 <= i < |pre| ==> IsWs(pre[i])
    ensures forall i :: 0 <= i < |post| ==> IsWs(post[i])
    ensures Unstarred(x) == pre + Unstarred(Trim(x)) + post
  {
    TrimSpec(x);
    pre, post := x[..TrimLo(x)], x[TrimHi(x)..];
    assert x == pre + Trim(x) + post;
    UnstarredConcat(pre + Trim(x), post);
    UnstarredConcat(pre, Trim(x));
    UnstarredPlain(pre);
    UnstarredPlain(post);
  }

  /** A cleaned label has no whitespace at either end and no `**` anywhere. */
  lemma CleanLabelClean(s: string)
    ensures NoEdgeWs(CleanLabel(s)) && NoDoubleStar(CleanLabel(s))
  {
    DropDoubleStarsClean(Trim(s));
    StripOuterStarsClean(DropDoubleStars(Trim(s)));
    NoDoubleStarTrim(StripOuterStars(DropDoubleStars(Trim(s))));
  }

  /**
   * A label with no edge whitespace, no `**` and no asterisk at either end is left as it is:
   * plain names survive cleaning.
   */
  lemma CleanLabelPlain(s: string)
    requires NoEdgeWs(s) && NoDoubleStar(s)
    requires s == [] || (s[0] != '*' && s[|s| - 1] != '*')
    ensures CleanLabel(s) == s
  {
    TrimNoEdge(s);
    DropDoubleStarsNone(s);
    TrimNoEdge(s);
  }

  /** A bold label loses its markers: `"**Trần Văn X**"` cleans to `"Trần Văn X"`. */
  lemma CleanLabelBold(name: string)
    requires NoEdgeWs(name) && forall i :: 0 <= i < |name| ==> name[i] != '*'
    ensures CleanLabel("**" + name + "**") == name
  {
    var s := "**" + name + "**";
    TrimNoEdge(s);
    assert s[2..] == name + "**";
    DropDoubleStarsPlain(name, "**");
    assert name + [] == name;
    assert StripOuterStars(name) == name;
    TrimNoEdge(name);
  }

  /** Cleaning is not idempotent: `"* *a"` cleans to `"*a"`, which cleans to `"a"`. */
  lemma CleanLabelNotIdempotent()
    ensures CleanLabel("* *a") == "*a" && CleanLabel("*a") == "a"
  {
    TrimNoEdge("* *a");
    DropDoubleStarsNone("* *a");
    assert StripOuterStars("* *a") == " *a";
    assert TrimLo(" *a") == 1;
    assert TrimHi(" *a") == 3;
    TrimNoEdge("*a");
    DropDoubleStarsNone("*a");
    assert StripOuterStars("*a") == "a";
    TrimNoEdge("a");
  }

  // ---------------------------------------------------------------------------------------
  // From lines to bullets

  /** One bullet of the document: its depth and its cleaned label. */
  datatype Entry = Entry(depth: nat, name: string)

  function EntryOf(line: string): Option<Entry> {
    match MatchBullet(line)
    case None => None
    case Some(b) => Some(Entry(DepthOf(b.indent), CleanLabel(b.raw)))
  }

  /** What each line contributes: its bullet, or `None` when it is not one. */
  function LineEntries(lines: seq<string>): (r: seq<Option<Entry>>)
    ensures |r| == |lines| && forall i :: 0 <= i < |lines| ==> r[i] == EntryOf(lines[i])
  {
    seq(|lines|, i requires 0 <= i < |lines| => EntryOf(lines[i]))
  }

  /** The bullets among the first `n` contributions, in order; non-bullets leave no trace. */
  function Collect(opts: seq<Option<Entry>>, n: nat): seq<Entry>
    requires n <= |opts|
  {
    if n == 0 then []
    else Collect(opts, n - 1) + match opts[n - 1] case None => [] case Some(e) => [e]
  }

  /** The bullets of the first `i` lines are a prefix of those of the first `n`. */
  lemma {:induction false} CollectPrefix(opts: seq<Option<Entry>>, i: nat, n: nat)
    requires i <= n <= |opts|
    ensures |Collect(opts, i)| <= |Collect(opts, n)|
    ensures Collect(opts, i) == Collect(opts, n)[..|Collect(opts, i)|]
    decreases n - i
  {
    if i < n {
      CollectPrefix(opts, i, n - 1);
    }
  }

  /** The bullets of a list of lines, in order. */
  function DocLinesEntries(lines: seq<string>): seq<Entry> {
    var opts := LineEntries(lines);
    Collect(opts, |opts|)
  }

  /** The bullets of a document, in order. */
  function DocEntries(md: string): seq<Entry> {
    DocLinesEntries(SplitLines(md))
  }

  // ---------------------------------------------------------------------------------------
  // The declarative parent rule

  /** The last of the first `n` bullets whose depth is at most `e`. */
  function LastAtMost(es: seq<Entry>, n: nat, e: int): (r: Option<nat>)
    requires n <= |es|
    ensures r.Some? ==> r.value < n && es[r.value].depth <= e
    ensures r.Some? ==> forall j :: r.value < j < n ==> es[j].depth > e
    ensures r.None? ==> forall j :: 0 <= j < n ==> es[j].depth > e
  {
    if n == 0 then None
    else if es[n - 1].depth <= e then Some(n - 1)
    else LastAtMost(es, n - 1, e)
  }

  /**
   * What `stack[e]` holds after the first `n` bullets: the last bullet of depth at most `e`,
   * if its depth is exactly `e`; otherwise a hole.
   */
  function Slot(es: seq<Entry>, n: nat, e: nat): Option<nat>
    requires n <= |es|
  {
    match LastAtMost(es, n, e)
    case Some(j) => if es[j].depth == e then Some(j) else None
    case None => None
  }

  /**
   * The parent of bullet `k`: none at depth 0; otherwise the most recent earlier bullet of
   * depth at most `d - 1`, and only if its depth is exactly `d - 1`. A bullet of depth
   * `d > 0` without one is dropped.
   */
  function ParentOf(es: seq<Entry>, k: nat): (r: Option<nat>)
    requires k < |es|
    ensures r.Some? ==> r.value < k && es[r.value].depth + 1 == es[k].depth
  {
    if es[k].depth == 0 then None else Slot(es, k, es[k].depth - 1)
  }

  /** ParentOf in words: `j` is the parent of `k` exactly when `j` is one level up and
      every bullet between them is at least as deep as `k`. */
  lemma ParentRule(es: seq<Entry>, k: nat, j: nat)
    requires k < |es|
    ensures ParentOf(es, k) == Some(j) <==>
      && j < k && es[j].depth + 1 == es[k].depth
      && forall m :: j < m < k ==> es[m].depth >= es[k].depth
  {
    if j < k && es[j].depth + 1 == es[k].depth && forall m :: j < m < k ==> es[m].depth >= es[k].depth {
      var l := LastAtMost(es, k, es[k].depth - 1);
      assert l.Some? by { assert es[j].depth <= es[k].depth - 1; }
      assert l.value == j;
    }
  }

  /** The children of bullet `p` among the first `n`, in document order. */
  function KidsUpTo(es: seq<Entry>, p: nat, n: nat): (r: seq<nat>)
    requires n <= |es|
    ensures forall i :: 0 <= i < |r| ==> p < r[i] < n
  {
    if n == 0 then []
    else KidsUpTo(es, p, n - 1) + if ParentOf(es, n - 1) == Some(p) then [n - 1] else []
  }

  /** No bullet up to `p` is a child of `p`. */
  lemma {:induction false} KidsNone(es: seq<Entry>, p: nat, n: nat)
    requires n <= |es| && n <= p + 1
    ensures KidsUpTo(es, p, n) == []
  {
    if n > 0 {
      KidsNone(es, p, n - 1);
    }
  }

  /** KidsUpTo lists exactly the bullets whose parent is `p`, each once, in document order. */
  lemma KidsUpToSpec(es: seq<Entry>, p: nat, n: nat)
    requires n <= |es|
    ensures forall k: nat :: k in KidsUpTo(es, p, n) <==> p < k < n && ParentOf(es, k) == Some(p)
    ensures forall i, j :: 0 <= i < j < |KidsUpTo(es, p, n)| ==> KidsUpTo(es, p, n)[i] < KidsUpTo(es, p, n)[j]
  {
    KidsUpToMembers(es, p, n);
    KidsUpToSorted(es, p, n);
  }

  lemma KidsUpToMembers(es: seq<Entry>, p: nat, n: nat)
    requires n <= |es|
    ensures forall k: nat :: k in KidsUpTo(es, p, n) <==> p < k < n && ParentOf(es, k) == Some(p)
  {
    forall k: nat ensures k in KidsUpTo(es, p, n) <==> p < k < n && ParentOf(es, k) == Some(p) {
      KidIn(es, p, n, k);
    }
  }

  lemma {:induction false} KidIn(es: seq<Entry>, p: nat, n: nat, k: nat)
    requires n <= |es|
    ensures k in KidsUpTo(es, p, n) <==> p < k < n && ParentOf(es, k) == Some(p)
  {
    if n > 0 {
      KidIn(es, p, n - 1, k);
      if ParentOf(es, n - 1) == Some(p) {
        assert KidsUpTo(es, p, n) == KidsUpTo(es, p, n - 1) + [n - 1];
      } else {
        assert KidsUpTo(es, p, n) == KidsUpTo(es, p, n - 1);
      }
    }
  }

  lemma {:induction false} KidsUpToSorted(es: seq<Entry>, p: nat, n: nat)
    requires n <= |es|
    ensures forall i, j :: 0 <= i < j < |KidsUpTo(es, p, n)| ==> KidsUpTo(es, p, n)[i] < KidsUpTo(es, p, n)[j]
  {
    if n > 0 {
      KidsUpToSorted(es, p, n - 1);
      if ParentOf(es, n - 1) == Some(p) {
        assert KidsUpTo(es, p, n) == KidsUpTo(es, p, n - 1) + [n - 1];
      } else {
        assert KidsUpTo(es, p, n) == KidsUpTo(es, p, n - 1);
      }
    }
  }

  /** The depth-0 bullets among the first `n`, in document order. */
  function RootsUpTo(es: seq<Entry>, n: nat): (r: seq<nat>)
    requires n <= |es|
    ensures forall i :: 0 <= i < |r| ==> r[i] < n
  {
    if n == 0 then []
    else RootsUpTo(es, n - 1) + if es[n - 1].depth == 0 then [n - 1] else []
  }

  /** RootsUpTo lists exactly the depth-0 bullets, each once, in document order. */
  lemma {:induction false} RootsUpToSpec(es: seq<Entry>, n: nat)
    requires n <= |es|
    ensures forall k: nat :: k in RootsUpTo(es, n) <==> k < n && es[k].depth == 0
    ensures forall i, j :: 0 <= i < j < |RootsUpTo(es, n)| ==> RootsUpTo(es, n)[i] < RootsUpTo(es, n)[j]
  {
    if n > 0 {
      RootsUpToSpec(es, n - 1);
    }
  }

  // ---------------------------------------------------------------------------------------
  // The arena and the tree it stands for

  /** `n${id}` for the node made by the `(k+1)`-th call of `makeNode`. */
  function IdOf(k: nat): string {
    "n" + Decimal.Str(k + 1)
  }

  const SyntheticRootId: string := "root"
  const SyntheticRootName: string := "Ph\U{1EA3} h\U{1EC7}"

  /** Every child index points forward and into the arena: the arena is a forest. */
  predicate ArenaOk(ids: seq<string>, names: seq<string>, kids: seq<seq<nat>>) {
    && |ids| == |kids| && |names| == |kids|
    && forall p, i :: 0 <= p < |kids| && 0 <= i < |kids[p]| ==> p < kids[p][i] < |kids|
  }

  /** The node object with arena index `k`, with everything pushed into it. */
  function Materialize(ids: seq<string>, names: seq<string>, kids: seq<seq<nat>>, k: nat): Node
    requires ArenaOk(ids, names, kids) && k < |kids|
    decreases |kids| - k
  {
    Node(ids[k], names[k],
         seq(|kids[k]|, i requires 0 <= i < |kids[k]| => Materialize(ids, names, kids, kids[k][i])),
         None)
  }

  /** The ids of the first `n` nodes made. */
  function SpecIds(n: nat): (r: seq<string>)
    ensures |r| == n && forall j :: 0 <= j < n ==> r[j] == IdOf(j)
  {
    seq(n, j requires 0 <= j < n => IdOf(j))
  }

  /** The labels of the first `n` bullets. */
  function SpecNames(es: seq<Entry>, n: nat): (r: seq<string>)
    requires n <= |es|
    ensures |r| == n && forall j :: 0 <= j < n ==> r[j] == es[j].name
  {
    seq(n, j requires 0 <= j < n => es[j].name)
  }

  /** The child lists of the first `n` bullets, counting only children among those `n`. */
  function SpecKids(es: seq<Entry>, n: nat): (r: seq<seq<nat>>)
    requires n <= |es|
    ensures |r| == n && forall p :: 0 <= p < n ==> r[p] == KidsUpTo(es, p, n)
    ensures ArenaOk(SpecIds(n), SpecNames(es, n), r)
  {
    seq(n, p requires 0 <= p < n => KidsUpTo(es, p, n))
  }

  /**
   * The value returned at the end: the only root itself when there is exactly one, otherwise
   * a synthetic root holding every root in document order (none for a document without
   * bullets).
   */
  function ArenaTree(ids: seq<string>, names: seq<string>, kids: seq<seq<nat>>, roots: seq<nat>): Node
    requires ArenaOk(ids, names, kids) && forall i :: 0 <= i < |roots| ==> roots[i] < |kids|
  {
    if |roots| == 1 then Materialize(ids, names, kids, roots[0])
    else
      Node(SyntheticRootId, SyntheticRootName,
           seq(|roots|, i requires 0 <= i < |roots| => Materialize(ids, names, kids, roots[i])),
           None)
  }

  /** The tree of a document that the parent rule describes. */
  function OutlineTree(md: string): Node {
    var es := DocEntries(md);
    ArenaTree(SpecIds(|es|), SpecNames(es, |es|), SpecKids(es, |es|), RootsUpTo(es, |es|))
  }

  // ---------------------------------------------------------------------------------------
  // The ancestor stack and the arena, one bullet at a time

  /** `stack[i] = Some(v)` on a JavaScript array: writing past the end leaves holes. */
  function SetSlot(s: seq<Option<nat>>, i: nat, v: nat): (r: seq<Option<nat>>)
    ensures |r| == if i < |s| then |s| else i + 1
    ensures r[i] == Some(v)
    ensures forall j :: 0 <= j < |s| && j != i ==> r[j] == s[j]
    ensures forall j :: |s| <= j < i ==> r[j] == None
  {
    if i < |s| then s[i := Some(v)] else s + seq(i - |s|, _ => None) + [Some(v)]
  }

  /** The JavaScript read `stack[depth - 1]`: out of range reads as `undefined`. */
  function ReadSlot(stack: seq<Option<nat>>, e: nat): Option<nat> {
    if e < |stack| then stack[e] else None
  }

  /**
   * The stack after the first `n` bullets: one slot per level up to the last bullet's depth,
   * each holding what `Slot` says.
   */
  function StackOf(es: seq<Entry>, n: nat): (r: seq<Option<nat>>)
    requires n <= |es|
    ensures |r| == if n == 0 then 0 else es[n - 1].depth + 1
    ensures forall e :: 0 <= e < |r| ==> r[e] == Slot(es, n, e)
  {
    seq(if n == 0 then 0 else es[n - 1].depth + 1, e requires e >= 0 => Slot(es, n, e))
  }

  /** The stack lookup finds the parent the rule prescribes. */
  lemma StackFindsParent(es: seq<Entry>, n: nat)
    requires n < |es| && es[n].depth > 0
    ensures ReadSlot(StackOf(es, n), es[n].depth - 1) == ParentOf(es, n)
  {
    var e := es[n].depth - 1;
    if e >= |StackOf(es, n)| && n > 0 {
      assert LastAtMost(es, n, e) == Some(n - 1);
    }
  }

  /** Writing the new bullet into its slot and truncating gives the next stack. */
  lemma StackStep(es: seq<Entry>, n: nat)
    requires n < |es|
    ensures StackOf(es, n + 1) == SetSlot(StackOf(es, n), es[n].depth, n)[..es[n].depth + 1]
  {
    var d := es[n].depth;
    var stack := StackOf(es, n);
    var s' := SetSlot(stack, d, n)[..d + 1];
    forall e | 0 <= e < d + 1 ensures s'[e] == Slot(es, n + 1, e) {
      if e < d {
        assert LastAtMost(es, n + 1, e) == LastAtMost(es, n, e);
        if e >= |stack| && n > 0 {
          assert LastAtMost(es, n, e) == Some(n - 1);
        }
      }
    }
  }

  /** `parent.children.push(n)` on the arena, when there is a parent. */
  function AddKid(kids: seq<seq<nat>>, parent: Option<nat>, n: nat): (r: seq<seq<nat>>)
    ensures |r| == |kids|
    ensures forall p :: 0 <= p < |kids| ==> r[p] == kids[p] + (if parent == Some(p) then [n] else [])
  {
    if parent.Some? && parent.value < |kids| then kids[parent.value := kids[parent.value] + [n]] else kids
  }

  /** Making bullet `n` with an empty child list and pushing it into its parent's list. */
  lemma KidsStep(es: seq<Entry>, n: nat)
    requires n < |es|
    ensures SpecKids(es, n + 1) == AddKid(SpecKids(es, n) + [[]], ParentOf(es, n), n)
  {
    var r := AddKid(SpecKids(es, n) + [[]], ParentOf(es, n), n);
    forall p | 0 <= p <= n ensures r[p] == KidsUpTo(es, p, n + 1) {
      if p == n {
        KidsNone(es, n, n);
      }
    }
  }

  lemma IdsStep(n: nat)
    ensures SpecIds(n + 1) == SpecIds(n) + [IdOf(n)]
  {
  }

  lemma NamesStep(es: seq<Entry>, n: nat)
    requires n < |es|
    ensures SpecNames(es, n + 1) == SpecNames(es, n) + [es[n].name]
  {
  }

  /** The bullets of line `i` onwards: a non-bullet line leaves them as they were, a bullet
      line adds exactly the next entry. */
  lemma CollectStep(opts: seq<Option<Entry>>, i: nat, id: nat)
    requires i < |opts| && id <= |Collect(opts, |opts|)| && Collect(opts, i) == Collect(opts, |opts|)[..id]
    ensures opts[i].None? ==> Collect(opts, i + 1) == Collect(opts, |opts|)[..id]
    ensures opts[i].Some? ==>
      && id < |Collect(opts, |opts|)| && Collect(opts, |opts|)[id] == opts[i].value
      && Collect(opts, i + 1) == Collect(opts, |opts|)[..id + 1]
  {
    var es := Collect(opts, |opts|);
    CollectPrefix(opts, i, |opts|);
    CollectPrefix(opts, i + 1, |opts|);
    if opts[i].Some? {
      assert Collect(opts, i + 1) == es[..id] + [opts[i].value];
      assert es[..id + 1] == Collect(opts, i + 1);
      assert es[id] == es[..id + 1][id];
    }
  }

  // ---------------------------------------------------------------------------------------
  // parseMarkdownTree

  /**
   * `roots.push(node)` at depth 0, otherwise `parent.children.push(node)` when the stack
   * holds a parent one level up; a new node starts with no children.
   */
  method LinkNode(ghost es: seq<Entry>, node: nat, depth: nat,
                  kids: seq<seq<nat>>, roots: seq<nat>, stack: seq<Option<nat>>)
    returns (kids': seq<seq<nat>>, roots': seq<nat>)
    requires node < |es| && es[node].depth == depth
    requires kids == SpecKids(es, node) && roots == RootsUpTo(es, node) && stack == StackOf(es, node)
    ensures kids' == SpecKids(es, node + 1) && roots' == RootsUpTo(es, node + 1)
  {
    KidsStep(es, node);
    kids' := kids + [[]];
    roots' := roots;
    if depth == 0 {
      roots' := roots + [node];
    } else {
      var parent := ReadSlot(stack, depth - 1);
      StackFindsParent(es, node);
      if parent.Some? {
        kids' := kids'[parent.value := kids'[parent.value] + [node]];
      }
    }
  }

  /** `stack[depth] = node; stack.length = depth + 1`. */
  method PushNode(ghost es: seq<Entry>, node: nat, depth: nat, stack: seq<Option<nat>>)
    returns (stack': seq<Option<nat>>)
    requires node < |es| && es[node].depth == depth && stack == StackOf(es, node)
    ensures stack' == StackOf(es, node + 1)
    ensures |stack'| == depth + 1 && stack'[depth] == Some(node)
  {
    StackStep(es, node);
    stack' := SetSlot(stack, depth, node);
    stack' := stack'[..depth + 1];
  }

  /**
   * One bullet's worth of the loop body: makeNode, attach to the root list or to the parent
   * on the stack, and put the new node on the stack at its depth.
   */
  method AddNode(ghost es: seq<Entry>, id: nat, depth: nat, name: string,
                 ids: seq<string>, names: seq<string>, kids: seq<seq<nat>>,
                 roots: seq<nat>, stack: seq<Option<nat>>)
    returns (ids': seq<string>, names': seq<string>, kids': seq<seq<nat>>,
             roots': seq<nat>, stack': seq<Option<nat>>)
    requires id < |es| && es[id] == Entry(depth, name)
    requires ids == SpecIds(id) && names == SpecNames(es, id) && kids == SpecKids(es, id)
    requires roots == RootsUpTo(es, id) && stack == StackOf(es, id)
    ensures ids' == SpecIds(id + 1) && names' == SpecNames(es, id + 1)
    ensures kids' == SpecKids(es, id + 1)
    ensures roots' == RootsUpTo(es, id + 1) && stack' == StackOf(es, id + 1)
    ensures ids' == ids + ["n" + Decimal.Str(id + 1)] && names' == names + [name]
    ensures |stack'| == depth + 1 && stack'[depth] == Some(id)
  {
    IdsStep(id);
    NamesStep(es, id);
    ids' := ids + ["n" + Decimal.Str(id + 1)];
    names' := names + [name];
    kids', roots' := LinkNode(es, id, depth, kids, roots, stack);
    stack' := PushNode(es, id, depth, stack);
  }

  /** The body of the loop for line `i`: a bullet line adds a node, any other line nothing. */
  method ParseLine(lines: seq<string>, ghost es: seq<Entry>, i: nat, id: nat,
                   ids: seq<string>, names: seq<string>, kids: seq<seq<nat>>,
                   roots: seq<nat>, stack: seq<Option<nat>>)
    returns (id': nat, ids': seq<string>, names': seq<string>, kids': seq<seq<nat>>,
             roots': seq<nat>, stack': seq<Option<nat>>)
    requires i < |lines| && es == DocLinesEntries(lines)
    requires id <= |es| && Collect(LineEntries(lines), i) == es[..id]
    requires ids == SpecIds(id) && names == SpecNames(es, id) && kids == SpecKids(es, id)
    requires roots == RootsUpTo(es, id) && stack == StackOf(es, id)
    ensures id' <= |es| && Collect(LineEntries(lines), i + 1) == es[..id']
    ensures ids' == SpecIds(id') && names' == SpecNames(es, id') && kids' == SpecKids(es, id')
    ensures roots' == RootsUpTo(es, id') && stack' == StackOf(es, id')
    ensures MatchBullet(lines[i]).None? ==> id' == id && ids' == ids && names' == names
    ensures MatchBullet(lines[i]).Some? ==>
      && id' == id + 1 && ids' == ids + ["n" + Decimal.Str(id + 1)]
      && names' == names + [CleanLabel(MatchBullet(lines[i]).value.raw)]
      && |stack'| == DepthOf(MatchBullet(lines[i]).value.indent) + 1
      && stack'[|stack'| - 1] == Some(id)
  {
    ghost var opts := LineEntries(lines);
    CollectStep(opts, i, id);
    assert opts[i] == EntryOf(lines[i]);
    var m := MatchBullet(lines[i]);
    if m.None? {
      return id, ids, names, kids, roots, stack;
    }
    var depth := DepthOf(m.value.indent);
    var name := CleanLabel(m.value.raw);
    ids', names', kids', roots', stack' := AddNode(es, id, depth, name, ids, names, kids, roots, stack);
    id' := id + 1;
  }

  /** The source's loop: one pass over the lines with an id counter and an ancestor stack. */
  method ParseLines(lines: seq<string>) returns (ids: seq<string>, names: seq<string>, kids: seq<seq<nat>>,
                                                 roots: seq<nat>)
    ensures var es := DocLinesEntries(lines);
      && ids == SpecIds(|es|) && names == SpecNames(es, |es|) && kids == SpecKids(es, |es|)
      && roots == RootsUpTo(es, |es|)
  {
    ghost var es := DocLinesEntries(lines);
    roots := [];
    var stack: seq<Option<nat>> := [];
    var id: nat := 0;
    ids, names, kids := [], [], [];
    for i := 0 to |lines|
      invariant id <= |es| && Collect(LineEntries(lines), i) == es[..id]
      invariant ids == SpecIds(id) && names == SpecNames(es, id) && kids == SpecKids(es, id)
      invariant roots == RootsUpTo(es, id) && stack == StackOf(es, id)
    {
      id, ids, names, kids, roots, stack := ParseLine(lines, es, i, id, ids, names, kids, roots, stack);
    }
    assert es[..id] == es;
  }

  /** `parseMarkdownTree(md)`: split into lines, parse them, and return the single root or the
      synthetic root over all of them. */
  method ParseMarkdownTree(md: string) returns (tree: Node)
    ensures tree == OutlineTree(md)
  {
    var lines := SplitLines(md);
    var ids, names, kids, roots := ParseLines(lines);
    tree := ArenaTree(ids, names, kids, roots);
  }
}
