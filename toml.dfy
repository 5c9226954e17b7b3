/** Parsed TOML documents as the converters see them: strings, arrays, tables
    (insertion-ordered dicts) and every other TOML value as an opaque scalar. */
module Toml {
  import opened OrderedDict
  import PyStr

  datatype Value =
    | Str(s: string)
    | Array(items: seq<Value>)
    | Table(entries: seq<(string, Value)>)
      /** Integers, booleans, dates and the like; the converters only copy them. */
    | Scalar(tag: nat)

  /** `t.get(k, default)` on a table. */
  function GetOr(t: seq<(string, Value)>, k: string, default: Value): (v: Value)
    ensures k in Keys(t) ==> v == Get(t, k)
    ensures k !in Keys(t) ==> v == default
  {
    match Lookup(t, k)
    case Some(v) => v
    case None => default
  }

  /** Python's `key in v`: a key of a table, an element of an array, a substring of a
      string. `None` where Python raises `TypeError`: `in` on an integer, a boolean or a date. */
  function Member(key: string, v: Value): (r: Option<bool>)
    ensures r.None? <==> v.Scalar?
  {
    match v
    case Str(s) => Some(PyStr.Contains(s, key))
    case Array(items) => Some(Str(key) in items)
    case Table(entries) => Some(key in Keys(entries))
    case Scalar(_) => None
  }

  /** Python's `for x in v`: the elements of an array, the one-character strings of a
      string, the keys of a table. `None` for a scalar, which Python cannot iterate. */
  function Iterate(v: Value): (r: Option<seq<Value>>)
    ensures r.None? <==> v.Scalar?
    ensures !v.Array? ==> r.None? || AllStr(r.value)
  {
    match v
    case Str(s) => Some(seq(|s|, i requires 0 <= i < |s| => Str([s[i]])))
    case Array(items) => Some(items)
    case Table(entries) => Some(seq(|entries|, i requires 0 <= i < |entries| => Str(entries[i].0)))
    case Scalar(_) => None
  }

  /** Every element is a string. */
  predicate AllStr(items: seq<Value>) {
    forall i :: 0 <= i < |items| ==> items[i].Str?
  }

  /** The strings of an array of strings. */
  function Strings(items: seq<Value>): (ss: seq<string>)
    requires AllStr(items)
    ensures |ss| == |items| && forall i :: 0 <= i < |items| ==> items[i] == Str(ss[i])
  {
    seq(|items|, i requires 0 <= i < |items| => items[i].s)
  }

  /** An array of strings. */
  function StrArray(ss: seq<string>): (v: Value)
    ensures v.Array? && AllStr(v.items) && Strings(v.items) == ss
  {
    Array(seq(|ss|, i requires 0 <= i < |ss| => Str(ss[i])))
  }

  /** A table whose values are the given strings, keys and order kept. */
  function StrTable(d: seq<(string, string)>): (v: Value)
    ensures v.Table? && Keys(v.entries) == Keys(d)
    ensures |v.entries| == |d| && forall i :: 0 <= i < |d| ==> v.entries[i] == (d[i].0, Str(d[i].1))
  {
    Table(seq(|d|, i requires 0 <= i < |d| => (d[i].0, Str(d[i].1))))
  }
}
