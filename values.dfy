/** The dynamically typed Python values that the dict utilities, the
    configuration tree and the version scripts pass around. Dicts are
    string-keyed and remember insertion order. A float is carried as the text
    it was parsed from; no arithmetic is done on it. */
module Values {
  import opened Wrappers
  import opened PyDict

  /** `Null` is Python's `None`. */
  datatype Value =
    | Null
    | Bool(b: bool)
    | Int(i: int)
    | Float(literal: string)
    | Str(s: string)
    | List(items: seq<Value>)
    | Dict(entries: seq<(string, Value)>)

  /** `{}`. */
  const EmptyDict: Value := Dict([])

  /** `isinstance(v, (int, float))`; a `bool` is an `int` in Python. */
  predicate IsNumber(v: Value) {
    v.Bool? || v.Int? || v.Float?
  }

  /** The value stored under `k` when `v` is a dict holding `k`. */
  function Child(v: Value, k: string): (r: Option<Value>)
    ensures r.Some? <==> v.Dict? && k in Keys(v.entries)
  {
    if v.Dict? then Lookup(v.entries, k) else Option.None
  }

  /** Every dict inside `v`, `v` included, holds each key once. */
  ghost predicate DeepWf(v: Value) {
    v.Dict? ==> Wf(v.entries) && DeepWfFrom(v, 0)
  }

  ghost predicate DeepWfFrom(d: Value, i: nat)
    requires d.Dict? && i <= |d.entries|
    decreases d, |d.entries| - i
  {
    i == |d.entries| ||
    (assert d.entries[i] in d.entries;
     DeepWf(d.entries[i].1) && DeepWfFrom(d, i + 1))
  }

  lemma {:induction false} DeepWfFromAll(d: Value, i: nat, j: nat)
    requires d.Dict? && i <= j < |d.entries| && DeepWfFrom(d, i)
    ensures DeepWf(d.entries[j].1)
    decreases j - i
  {
    if i < j {
      DeepWfFromAll(d, i + 1, j);
    }
  }

  lemma {:induction false} DeepWfChild(d: Value, k: string)
    requires DeepWf(d) && d.Dict? && k in Keys(d.entries)
    ensures DeepWf(Child(d, k).value)
  {
    var v := Child(d, k).value;
    var j :| 0 <= j < |d.entries| && d.entries[j] == (k, v);
    DeepWfFromAll(d, 0, j);
  }
}
