/**
 * `uppercaseNames` of scripts/uppercase-json-names.js: a copy of a parsed JSON value in which
 * every string stored under a `name` key is upper-cased. `toLocaleUpperCase('vi-VN')` is the
 * parameter `upper`; the model assumes nothing about it except where a lemma says so.
 */
module UppercaseNames {

  /** A parsed JSON value. Numbers keep their text; object members keep their order. */
  datatype Json =
    | JNull
    | JBool(b: bool)
    | JNum(repr: string)
    | JStr(s: string)
    | JArr(items: seq<Json>)
    | JObj(fields: seq<Field>)

  /** One own property of an object, as `Object.entries` yields it. */
  datatype Field = Field(key: string, value: Json)

  function Keys(fs: seq<Field>): (r: seq<string>)
    ensures |r| == |fs| && forall i :: 0 <= i < |fs| ==> r[i] == fs[i].key
  {
    seq(|fs|, i requires 0 <= i < |fs| => fs[i].key)
  }

  predicate DistinctKeys(fs: seq<Field>) {
    forall i, j :: 0 <= i < j < |fs| ==> fs[i].key != fs[j].key
  }

  /** What `JSON.parse` produces: no object has the same key twice, at any depth. */
  predicate WellFormed(j: Json)
    decreases j
  {
    match j
    case JArr(items) => forall i :: 0 <= i < |items| ==> WellFormed(items[i])
    case JObj(fs) => DistinctKeys(fs) && forall i :: 0 <= i < |fs| ==> WellFormed(fs[i].value)
    case _ => true
  }

  // ---------------------------------------------------------------------------------------
  // The transformation

  /** The result of `uppercaseNames(j)`. */
  function Uppercase(j: Json, upper: string -> string): (r: Json)
    ensures r.JStr? <==> j.JStr?
    ensures j.JStr? ==> r == j
    decreases j, 1
  {
    match j
    case JArr(items) => JArr(seq(|items|, i requires 0 <= i < |items| => Uppercase(items[i], upper)))
    case JObj(fs) => JObj(seq(|fs|, i requires 0 <= i < |fs| => UppercaseField(fs[i], upper)))
    case _ => j
  }

  /** One iteration of the object loop: a string `name` is upper-cased, anything else recursed into. */
  function UppercaseField(f: Field, upper: string -> string): (r: Field)
    ensures r.key == f.key
    decreases f, 0
  {
    if f.key == "name" && f.value.JStr? then Field(f.key, JStr(upper(f.value.s)))
    else Field(f.key, Uppercase(f.value, upper))
  }

  /** `out[k] = v`: overwrite the member with key `k` if there is one, else append it. */
  function Put(out: seq<Field>, k: string, v: Json): (r: seq<Field>)
    ensures Field(k, v) in r
    ensures (forall i :: 0 <= i < |out| ==> out[i].key != k) ==> r == out + [Field(k, v)]
  {
    if out == [] then [Field(k, v)]
    else if out[0].key == k then [Field(k, v)] + out[1..]
    else [out[0]] + Put(out[1..], k, v)
  }

  /** Storing under a key that is already there replaces that member's value in place. */
  lemma {:induction false} PutOverwrites(out: seq<Field>, k: string, v: Json, i: nat)
    requires i < |out| && out[i].key == k && forall j :: 0 <= j < i ==> out[j].key != k
    ensures |Put(out, k, v)| == |out| && Put(out, k, v)[i] == Field(k, v)
    ensures forall j :: 0 <= j < |out| && j != i ==> Put(out, k, v)[j] == out[j]
  {
    if i > 0 {
      PutOverwrites(out[1..], k, v, i - 1);
    }
  }

  /** `uppercaseNames`: arrays are mapped, objects are rebuilt member by member. */
  method UppercaseNamesMethod(j: Json, upper: string -> string) returns (r: Json)
    requires WellFormed(j)
    ensures r == Uppercase(j, upper)
    decreases j, 2
  {
    match j {
      case JArr(items) =>
        r := MapItems(items, upper);
      case JObj(fs) =>
        r := RebuildObject(fs, upper);
      case _ =>
        r := j;
    }
  }

  /** `obj.map(uppercaseNames)`. */
  method MapItems(items: seq<Json>, upper: string -> string) returns (r: Json)
    requires forall i :: 0 <= i < |items| ==> WellFormed(items[i])
    ensures r == Uppercase(JArr(items), upper)
    decreases items, 1
  {
    var out: seq<Json> := [];
    for i := 0 to |items|
      invariant |out| == i && forall k :: 0 <= k < i ==> out[k] == Uppercase(items[k], upper)
    {
      var v := UppercaseNamesMethod(items[i], upper);
      out := out + [v];
    }
    r := JArr(out);
  }

  /** The `for (const [k, v] of Object.entries(obj))` loop filling a fresh `out`. */
  method RebuildObject(fs: seq<Field>, upper: string -> string) returns (r: Json)
    requires DistinctKeys(fs) && forall i :: 0 <= i < |fs| ==> WellFormed(fs[i].value)
    ensures r == Uppercase(JObj(fs), upper)
    decreases fs, 1
  {
    var out: seq<Field> := [];
    for i := 0 to |fs|
      invariant |out| == i && forall k :: 0 <= k < i ==> out[k] == UppercaseField(fs[k], upper)
    {
      out := PutField(fs, i, out, upper);
    }
    r := JObj(out);
  }

  /** One iteration: compute the new value of member `i` and store it under its key. */
  method PutField(fs: seq<Field>, i: nat, out: seq<Field>, upper: string -> string) returns (out': seq<Field>)
    requires i < |fs| && DistinctKeys(fs) && WellFormed(fs[i].value)
    requires |out| == i && forall k :: 0 <= k < i ==> out[k] == UppercaseField(fs[k], upper)
    ensures |out'| == i + 1 && forall k :: 0 <= k < i + 1 ==> out'[k] == UppercaseField(fs[k], upper)
    decreases fs, 0
  {
    var key, v := fs[i].key, fs[i].value;
    var nv: Json;
    if key == "name" && v.JStr? {
      nv := JStr(upper(v.s));
    } else {
      nv := UppercaseNamesMethod(v, upper);
    }
    forall k | 0 <= k < i ensures out[k].key != key {
      assert out[k].key == fs[k].key;
    }
    out' := Put(out, key, nv);
  }

  // ---------------------------------------------------------------------------------------
  // Properties

  /**
   * Two values that are the same except for strings stored under `name` keys: the same
   * kinds, array lengths, keys and key order everywhere.
   */
  predicate OnlyNamesDiffer(a: Json, b: Json)
    decreases a
  {
    match a
    case JArr(xs) =>
      b.JArr? && |b.items| == |xs| && forall i :: 0 <= i < |xs| ==> OnlyNamesDiffer(xs[i], b.items[i])
    case JObj(fs) =>
      && b.JObj? && |b.fields| == |fs|
      && forall i :: 0 <= i < |fs| ==>
        && b.fields[i].key == fs[i].key
        && ((fs[i].key == "name" && fs[i].value.JStr? && b.fields[i].value.JStr?)
            || OnlyNamesDiffer(fs[i].value, b.fields[i].value))
    case _ => b == a
  }

  /**
   * The result differs from the input at most in `name` strings: arrays keep their length,
   * objects their keys in order, and numbers, booleans, `null` and other strings are kept.
   */
  lemma {:induction false} UppercaseOnlyNames(j: Json, upper: string -> string)
    ensures OnlyNamesDiffer(j, Uppercase(j, upper))
    decreases j
  {
    match j {
      case JArr(xs) =>
        forall i | 0 <= i < |xs| ensures OnlyNamesDiffer(xs[i], Uppercase(j, upper).items[i]) {
          UppercaseOnlyNames(xs[i], upper);
        }
      case JObj(fs) =>
        forall i | 0 <= i < |fs| && !(fs[i].key == "name" && fs[i].value.JStr?)
          ensures OnlyNamesDiffer(fs[i].value, Uppercase(j, upper).fields[i].value)
        {
          UppercaseOnlyNames(fs[i].value, upper);
        }
      case _ =>
    }
  }

  /** Every member of an object keeps its key and place; a `name` string becomes `upper` of it. */
  lemma UppercaseObject(fs: seq<Field>, upper: string -> string)
    ensures Uppercase(JObj(fs), upper).JObj?
    ensures Keys(Uppercase(JObj(fs), upper).fields) == Keys(fs)
    ensures forall i :: 0 <= i < |fs| && fs[i].key == "name" && fs[i].value.JStr? ==>
      Uppercase(JObj(fs), upper).fields[i].value == JStr(upper(fs[i].value.s))
  {
  }

  /** Well-formed input gives well-formed output: no key is duplicated by the rebuild. */
  lemma {:induction false} UppercaseWellFormed(j: Json, upper: string -> string)
    requires WellFormed(j)
    ensures WellFormed(Uppercase(j, upper))
    decreases j
  {
    match j {
      case JArr(xs) =>
        forall i | 0 <= i < |xs| ensures WellFormed(Uppercase(j, upper).items[i]) {
          UppercaseWellFormed(xs[i], upper);
        }
      case JObj(fs) =>
        var gs := Uppercase(j, upper).fields;
        forall i | 0 <= i < |fs| ensures WellFormed(gs[i].value) {
          assert gs[i] == UppercaseField(fs[i], upper);
          if !(fs[i].key == "name" && fs[i].value.JStr?) {
            UppercaseWellFormed(fs[i].value, upper);
          }
        }
        assert DistinctKeys(gs) by {
          forall a, b | 0 <= a < b < |gs| ensures gs[a].key != gs[b].key {
            assert gs[a] == UppercaseField(fs[a], upper) && gs[b] == UppercaseField(fs[b], upper);
          }
        }
      case _ =>
    }
  }

  /** With an `upper` that changes nothing, the copy equals the input. */
  lemma {:induction false} UppercaseIdentity(j: Json, upper: string -> string)
    requires forall s :: upper(s) == s
    ensures Uppercase(j, upper) == j
    decreases j
  {
    match j {
      case JArr(xs) =>
        forall i | 0 <= i < |xs| ensures Uppercase(xs[i], upper) == xs[i] {
          UppercaseIdentity(xs[i], upper);
        }
        assert Uppercase(j, upper).items == xs;
      case JObj(fs) =>
        forall i | 0 <= i < |fs| ensures UppercaseField(fs[i], upper) == fs[i] {
          if !(fs[i].key == "name" && fs[i].value.JStr?) {
            UppercaseIdentity(fs[i].value, upper);
          }
        }
        assert Uppercase(j, upper).fields == fs;
      case _ =>
    }
  }

  /** Running the utility twice is the same as once when upper-casing is idempotent. */
  lemma {:induction false} UppercaseIdempotent(j: Json, upper: string -> string)
    requires forall s :: upper(upper(s)) == upper(s)
    ensures Uppercase(Uppercase(j, upper), upper) == Uppercase(j, upper)
    decreases j
  {
    match j {
      case JArr(xs) =>
        var ys := Uppercase(j, upper).items;
        forall i | 0 <= i < |xs| ensures Uppercase(ys[i], upper) == ys[i] {
          UppercaseIdempotent(xs[i], upper);
        }
        assert Uppercase(JArr(ys), upper).items == ys;
      case JObj(fs) =>
        var gs := Uppercase(j, upper).fields;
        forall i | 0 <= i < |fs| ensures UppercaseField(gs[i], upper) == gs[i] {
          assert gs[i] == UppercaseField(fs[i], upper);
          if !(fs[i].key == "name" && fs[i].value.JStr?) {
            UppercaseIdempotent(fs[i].value, upper);
          }
        }
        assert Uppercase(JObj(gs), upper).fields == gs;
      case _ =>
    }
  }
}
