/** The result of a parse: every destination maps to the list of strings
    stored for it. The source keeps these in an unordered map; a Dafny map
    has the same meaning because no iteration order is observable here. */
module Namespaces {

  type Namespace = map<string, seq<string>>

  /** `data_[key]`: the stored list, or the empty list the subscript creates. */
  function Lookup(ns: Namespace, key: string): (r: seq<string>)
    ensures key !in ns ==> r == []
  {
    if key in ns then ns[key] else []
  }

  /** `set_value`: the first stored value becomes `value`; an empty or missing
      list becomes the one-element list. */
  function SetValue(ns: Namespace, key: string, value: string): (r: Namespace)
    ensures r.Keys == ns.Keys + {key}
    ensures |r[key]| >= 1 && r[key][0] == value
    ensures |r[key]| == if |Lookup(ns, key)| == 0 then 1 else |Lookup(ns, key)|
    ensures forall i :: 1 <= i < |r[key]| ==> r[key][i] == Lookup(ns, key)[i]
    ensures forall k :: k in ns && k != key ==> r[k] == ns[k]
  {
    var old_ := Lookup(ns, key);
    if |old_| == 0 then ns[key := [value]] else ns[key := [value] + old_[1..]]
  }

  /** `set_values`: the list stored for `key` is replaced by `values`. */
  function SetValues(ns: Namespace, key: string, values: seq<string>): (r: Namespace)
    ensures r.Keys == ns.Keys + {key}
    ensures Lookup(r, key) == values
    ensures forall k :: k in ns && k != key ==> r[k] == ns[k]
  {
    ns[key := values]
  }

  /** `args[dest].push_back(v)` for every `v` of `values`: the key exists
      afterwards, even when nothing is appended. */
  function AppendValues(ns: Namespace, key: string, values: seq<string>): (r: Namespace)
    ensures r.Keys == ns.Keys + {key}
    ensures |Lookup(r, key)| == |Lookup(ns, key)| + |values|
    ensures Lookup(r, key)[..|Lookup(ns, key)|] == Lookup(ns, key)
    ensures Lookup(r, key)[|Lookup(ns, key)|..] == values
    ensures forall k :: k in ns && k != key ==> r[k] == ns[k]
  {
    ns[key := Lookup(ns, key) + values]
  }

  /** `args[k] = v` for every pair of `child`: the child's entries win. */
  function Merge(parent: Namespace, child: Namespace): (r: Namespace)
    ensures r.Keys == parent.Keys + child.Keys
    ensures forall k :: k in child ==> r[k] == child[k]
    ensures forall k :: k in parent && k !in child ==> r[k] == parent[k]
  {
    parent + child
  }

  /** Of two writes to one key, only the later one is visible. */
  lemma UpdateTwice(ns: Namespace, key: string, first: seq<string>, second: seq<string>)
    ensures ns[key := first][key := second] == ns[key := second]
  {
  }

  /** Two `set_value`s on one key: the later one wins and the tail of the
      list is left as it was. */
  lemma SetValueTwice(ns: Namespace, key: string, a: string, b: string)
    ensures SetValue(SetValue(ns, key, a), key, b) == SetValue(ns, key, b)
  {
    var l := SetValue(SetValue(ns, key, a), key, b);
    var r := SetValue(ns, key, b);
    assert l.Keys == r.Keys;
    assert l[key] == r[key];
  }

  /** Appending in two steps is appending the concatenation. */
  lemma AppendValuesTwice(ns: Namespace, key: string, a: seq<string>, b: seq<string>)
    ensures AppendValues(AppendValues(ns, key, a), key, b) == AppendValues(ns, key, a + b)
  {
    var once := Lookup(ns, key) + a;
    var m := AppendValues(ns, key, a);
    assert m == ns[key := once] && Lookup(m, key) == once;
    assert once + b == Lookup(ns, key) + (a + b);
    UpdateTwice(ns, key, once, once + b);
  }
}
