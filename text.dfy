/**
 * The string primitives the JavaScript sources rely on: the `\s` character class, `trim`,
 * `split(/\s+/)`, `split(/\r?\n/)` and joining with a separator. Scans are written over
 * indices into the string (`from`, `upto`) rather than over slices.
 */
module Text {

  /** JavaScript's `\s`: the WhiteSpace and LineTerminator code points of ECMAScript. */
  predicate IsWs(c: char) {
    || c == '\t' || c == '\n' || c == '\U{000B}' || c == '\U{000C}' || c == '\r' || c == ' '
    || c == '\U{00A0}' || c == '\U{1680}' || ('\U{2000}' <= c <= '\U{200A}')
    || c == '\U{2028}' || c == '\U{2029}' || c == '\U{202F}' || c == '\U{205F}'
    || c == '\U{3000}' || c == '\U{FEFF}'
  }

  /** The characters JavaScript's `.` does not match. */
  predicate IsLineTerminator(c: char) {
    c == '\n' || c == '\r' || c == '\U{2028}' || c == '\U{2029}'
  }

  predicate NoWs(s: string) {
    forall i :: 0 <= i < |s| ==> !IsWs(s[i])
  }

  /** Neither the first nor the last character is whitespace. */
  predicate NoEdgeWs(s: string) {
    s == [] || (!IsWs(s[0]) && !IsWs(s[|s| - 1]))
  }

  /** The end of the whitespace run that starts at `from`. */
  function SkipWs(s: string, from: nat): (r: nat)
    requires from <= |s|
    ensures from <= r <= |s|
    ensures r < |s| ==> !IsWs(s[r])
    decreases |s| - from
  {
    if from == |s| || !IsWs(s[from]) then from else SkipWs(s, from + 1)
  }

  /** Everything SkipWs passes over is whitespace. */
  lemma {:induction false} SkipWsSpan(s: string, from: nat)
    requires from <= |s|
    ensures forall j :: from <= j < SkipWs(s, from) ==> IsWs(s[j])
    decreases |s| - from
  {
    if from < |s| && IsWs(s[from]) {
      SkipWsSpan(s, from + 1);
    }
  }

  /** The start of the whitespace run that ends at `upto`, going back no further than `lo`. */
  function SkipWsBack(s: string, lo: nat, upto: nat): (r: nat)
    requires lo <= upto <= |s|
    ensures lo <= r <= upto
    ensures r > lo ==> !IsWs(s[r - 1])
    decreases upto
  {
    if upto == lo || !IsWs(s[upto - 1]) then upto else SkipWsBack(s, lo, upto - 1)
  }

  /** Everything SkipWsBack passes over is whitespace. */
  lemma {:induction false} SkipWsBackSpan(s: string, lo: nat, upto: nat)
    requires lo <= upto <= |s|
    ensures forall j :: SkipWsBack(s, lo, upto) <= j < upto ==> IsWs(s[j])
    decreases upto
  {
    if upto > lo && IsWs(s[upto - 1]) {
      SkipWsBackSpan(s, lo, upto - 1);
    }
  }

  /** Where the trimmed text starts. */
  function TrimLo(s: string): nat
    ensures TrimLo(s) <= |s|
  {
    SkipWs(s, 0)
  }

  /** Where the trimmed text ends. */
  function TrimHi(s: string): nat
    ensures TrimLo(s) <= TrimHi(s) <= |s|
  {
    SkipWsBack(s, TrimLo(s), |s|)
  }

  /**
   * `String.prototype.trim`, and equally `s.replace(/^\s+|\s+$/g, '')`: what lies between
   * the whitespace at the two ends.
   */
  function Trim(s: string): (r: string)
    ensures NoEdgeWs(r) && |r| <= |s|
  {
    s[TrimLo(s)..TrimHi(s)]
  }

  /** Trim removes exactly the whitespace at the two ends and keeps the middle. */
  lemma TrimSpec(s: string)
    ensures Trim(s) == s[TrimLo(s)..TrimHi(s)]
    ensures forall j :: 0 <= j < TrimLo(s) ==> IsWs(s[j])
    ensures forall j :: TrimHi(s) <= j < |s| ==> IsWs(s[j])
  {
    SkipWsSpan(s, 0);
    SkipWsBackSpan(s, TrimLo(s), |s|);
    if TrimLo(s) == |s| {
      assert TrimHi(s) == |s|;
    }
  }

  /** A string without whitespace at either end is its own trim. */
  lemma TrimNoEdge(s: string)
    requires NoEdgeWs(s)
    ensures Trim(s) == s
  {
    if s != [] {
      assert TrimLo(s) == 0;
      assert TrimHi(s) == |s|;
    }
  }

  /** The first whitespace index at or after `from`, or `|s|` when there is none. */
  function FindWs(s: string, from: nat): (i: nat)
    requires from <= |s|
    ensures from <= i <= |s|
    ensures i < |s| ==> IsWs(s[i])
    decreases |s| - from
  {
    if from == |s| || IsWs(s[from]) then from else FindWs(s, from + 1)
  }

  /** FindWs passes over non-whitespace only. */
  lemma {:induction false} FindWsSpan(s: string, from: nat)
    requires from <= |s|
    ensures forall j :: from <= j < FindWs(s, from) ==> !IsWs(s[j])
    decreases |s| - from
  {
    if from < |s| && !IsWs(s[from]) {
      FindWsSpan(s, from + 1);
    }
  }

  /** The pieces of `s[from..]` between maximal whitespace runs; see SplitWs. */
  function SplitWsFrom(s: string, from: nat): (r: seq<string>)
    requires from <= |s|
    ensures |r| >= 1
    decreases |s| - from
  {
    var i := FindWs(s, from);
    if i == |s| then [s[from..]] else [s[from..i]] + SplitWsFrom(s, SkipWs(s, i))
  }

  /** The pieces contain no whitespace. */
  lemma {:induction false} SplitWsNoWs(s: string, from: nat)
    requires from <= |s|
    ensures forall k :: 0 <= k < |SplitWsFrom(s, from)| ==> NoWs(SplitWsFrom(s, from)[k])
    decreases |s| - from
  {
    var i := FindWs(s, from);
    FindWsSpan(s, from);
    if i < |s| {
      SplitWsNoWs(s, SkipWs(s, i));
    }
  }

  /**
   * `s.split(/\s+/)`: the pieces between maximal whitespace runs. A leading run yields an
   * empty first piece, a trailing run an empty last piece, and `""` yields `[""]`.
   */
  function SplitWs(s: string): (r: seq<string>)
    ensures |r| >= 1
  {
    SplitWsFrom(s, 0)
  }

  /** The non-whitespace characters of `s[from..]`, in order. */
  function NonWsFrom(s: string, from: nat): (r: string)
    requires from <= |s|
    ensures NoWs(r)
    decreases |s| - from
  {
    if from == |s| then []
    else (if IsWs(s[from]) then [] else [s[from]]) + NonWsFrom(s, from + 1)
  }

  function Concat(ss: seq<string>): string {
    if ss == [] then [] else ss[0] + Concat(ss[1..])
  }

  lemma {:induction false} NonWsKeepsWord(s: string, from: nat, upto: nat)
    requires from <= upto <= |s|
    requires forall j :: from <= j < upto ==> !IsWs(s[j])
    ensures NonWsFrom(s, from) == s[from..upto] + NonWsFrom(s, upto)
    decreases upto - from
  {
    if from < upto {
      NonWsKeepsWord(s, from + 1, upto);
      calc {
        NonWsFrom(s, from);
        [s[from]] + NonWsFrom(s, from + 1);
        [s[from]] + (s[from + 1..upto] + NonWsFrom(s, upto));
        ([s[from]] + s[from + 1..upto]) + NonWsFrom(s, upto);
        { assert [s[from]] + s[from + 1..upto] == s[from..upto]; }
        s[from..upto] + NonWsFrom(s, upto);
      }
    } else {
      assert s[from..upto] == [];
    }
  }

  lemma {:induction false} NonWsSkipsGap(s: string, from: nat, upto: nat)
    requires from <= upto <= |s|
    requires forall j :: from <= j < upto ==> IsWs(s[j])
    ensures NonWsFrom(s, from) == NonWsFrom(s, upto)
    decreases upto - from
  {
    if from < upto {
      NonWsSkipsGap(s, from + 1, upto);
    }
  }

  /** Splitting on whitespace loses the whitespace and nothing else. */
  lemma {:induction false} SplitWsKeepsText(s: string, from: nat)
    requires from <= |s|
    ensures Concat(SplitWsFrom(s, from)) == NonWsFrom(s, from)
    decreases |s| - from
  {
    var i := FindWs(s, from);
    FindWsSpan(s, from);
    NonWsKeepsWord(s, from, i);
    if i == |s| {
      assert Concat(SplitWsFrom(s, from)) == s[from..] + [];
    } else {
      var k := SkipWs(s, i);
      SkipWsSpan(s, i);
      NonWsSkipsGap(s, i, k);
      SplitWsKeepsText(s, k);
      assert SplitWsFrom(s, from) == [s[from..i]] + SplitWsFrom(s, k);
    }
  }

  /** Text that starts and ends with a non-space splits into non-empty words only. */
  lemma {:induction false} SplitWsWordsNonEmpty(s: string, from: nat)
    requires from < |s| && !IsWs(s[from]) && !IsWs(s[|s| - 1])
    ensures forall k :: 0 <= k < |SplitWsFrom(s, from)| ==> SplitWsFrom(s, from)[k] != []
    decreases |s| - from
  {
    var i := FindWs(s, from);
    if i < |s| {
      var k := SkipWs(s, i);
      SkipWsSpan(s, i);
      assert k < |s|;
      SplitWsWordsNonEmpty(s, k);
      assert SplitWsFrom(s, from) == [s[from..i]] + SplitWsFrom(s, k);
    }
  }

  /** `parts.join(sep)`. */
  function Join(parts: seq<string>, sep: string): string {
    if |parts| == 0 then []
    else if |parts| == 1 then parts[0]
    else Join(parts[..|parts| - 1], sep) + sep + parts[|parts| - 1]
  }

  lemma {:induction false} JoinCons(x: string, rest: seq<string>, sep: string)
    requires rest != []
    ensures Join([x] + rest, sep) == x + sep + Join(rest, sep)
    decreases |rest|
  {
    if |rest| > 1 {
      var init := rest[..|rest| - 1];
      assert ([x] + rest)[..|rest|] == [x] + init;
      JoinCons(x, init, sep);
    }
  }

  /** The first line feed at or after `from`, or `|s|` when there is none. */
  function FindNewline(s: string, from: nat): (i: nat)
    requires from <= |s|
    ensures from <= i <= |s|
    ensures i < |s| ==> s[i] == '\n'
    decreases |s| - from
  {
    if from == |s| || s[from] == '\n' then from else FindNewline(s, from + 1)
  }

  /** FindNewline passes over characters other than a line feed only. */
  lemma {:induction false} FindNewlineSpan(s: string, from: nat)
    requires from <= |s|
    ensures forall j :: from <= j < FindNewline(s, from) ==> s[j] != '\n'
    decreases |s| - from
  {
    if from < |s| && s[from] != '\n' {
      FindNewlineSpan(s, from + 1);
    }
  }

  /** The lines of `s[from..]`; see SplitLines. */
  function SplitLinesFrom(s: string, from: nat): (r: seq<string>)
    requires from <= |s|
    ensures |r| >= 1
    decreases |s| - from
  {
    var i := FindNewline(s, from);
    if i == |s| then [s[from..]]
    else
      var line := if i > from && s[i - 1] == '\r' then s[from..i - 1] else s[from..i];
      [line] + SplitLinesFrom(s, i + 1)
  }

  /**
   * `s.split(/\r?\n/)`: the pieces between line feeds, each with the one carriage return
   * that stood right before its line feed removed. `""` yields `[""]`.
   */
  function SplitLines(s: string): (r: seq<string>)
    ensures |r| >= 1
  {
    SplitLinesFrom(s, 0)
  }

  /** No line contains a line feed. */
  lemma {:induction false} SplitLinesNoNewline(s: string, from: nat)
    requires from <= |s|
    ensures forall k :: 0 <= k < |SplitLinesFrom(s, from)| ==> '\n' !in SplitLinesFrom(s, from)[k]
    decreases |s| - from
  {
    var i := FindNewline(s, from);
    FindNewlineSpan(s, from);
    if i < |s| {
      SplitLinesNoNewline(s, i + 1);
    }
  }

  /** A slice cut at one of its characters. */
  lemma SliceAround(s: string, from: nat, i: nat)
    requires from <= i < |s|
    ensures s[from..] == s[from..i] + [s[i]] + s[i + 1..]
  {
  }

  /** Without carriage returns, splitting into lines is undone by joining with line feeds. */
  lemma {:induction false} SplitLinesJoin(s: string, from: nat)
    requires from <= |s|
    requires forall j :: from <= j < |s| ==> s[j] != '\r'
    ensures Join(SplitLinesFrom(s, from), "\n") == s[from..]
    decreases |s| - from
  {
    var i := FindNewline(s, from);
    if i < |s| {
      var rest := SplitLinesFrom(s, i + 1);
      assert i > from ==> s[i - 1] != '\r';
      assert SplitLinesFrom(s, from) == [s[from..i]] + rest;
      SplitLinesJoin(s, i + 1);
      JoinCons(s[from..i], rest, "\n");
      SliceAround(s, from, i);
    } else {
      assert SplitLinesFrom(s, from) == [s[from..]];
      assert Join([s[from..]], "\n") == s[from..];
    }
  }
}
