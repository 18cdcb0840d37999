/** The list and dict toolkit of `utils/common_utils.py`. Dicts are the
    insertion-ordered item sequences of `PyDict`; nested data is a `Value`.
    Functions that mutate their argument in place are modelled as returning
    the updated value. */
module CommonUtils {
  import opened Wrappers
  import opened PyDict
  import opened Text
  import opened Values

  // =====================================================================
  // List operations

  /** The concatenation of a sequence of lists. */
  function Concat<T>(xss: seq<seq<T>>): (r: seq<T>)
  {
    if xss == [] then [] else xss[0] + Concat(xss[1..])
  }

  /** The slices `data[i : i + size]` for `i` in `range(0, len(data), size)`. */
  function ChunksOf<T>(data: seq<T>, size: nat): (chunks: seq<seq<T>>)
    requires size > 0
    ensures Concat(chunks) == data
    ensures data == [] <==> chunks == []
    ensures forall i :: 0 <= i < |chunks| ==> 0 < |chunks[i]| <= size
    ensures forall i :: 0 <= i < |chunks| - 1 ==> |chunks[i]| == size
    decreases |data|
  {
    if data == [] then []
    else if |data| <= size then
      assert Concat([data]) == data + Concat([]);
      [data]
    else
      var rest := ChunksOf(data[size..], size);
      var r := [data[..size]] + rest;
      assert r[0] == data[..size] && r[1..] == rest;
      assert Concat(r) == data[..size] + Concat(rest);
      assert data == data[..size] + data[size..];
      r
  }

  /** There are `ceil(len(data) / size)` chunks: just enough to hold `data`. */
  lemma {:induction false} ChunkCount<T>(data: seq<T>, size: nat)
    requires size > 0
    ensures |data| <= |ChunksOf(data, size)| * size
    ensures data != [] ==> (|ChunksOf(data, size)| - 1) * size < |data|
    decreases |data|
  {
    if data != [] && |data| > size {
      var rest := data[size..];
      var c := |ChunksOf(rest, size)|;
      ChunkCount(rest, size);
      assert |ChunksOf(data, size)| == c + 1;
      MulAround(c, size);
    }
  }

  lemma MulAround(c: int, size: int)
    ensures (c + 1) * size == c * size + size && (c - 1) * size == c * size - size
  {
  }

  /** `chunk_list(data, chunk_size)`, a generator: iterating it raises
      `ValueError` when `chunk_size <= 0`. */
  function ChunkList<T>(data: seq<T>, chunkSize: int): (r: Result<seq<seq<T>>>)
    ensures chunkSize <= 0 <==> r == Err(ValueError)
    ensures r.Ok? ==> r.value == ChunksOf(data, chunkSize)
  {
    if chunkSize <= 0 then Err(ValueError) else Ok(ChunksOf(data, chunkSize))
  }

  /** `ensure_list(value)`. */
  function EnsureList(value: Value): (r: seq<Value>)
    ensures value.Null? ==> r == []
    ensures value.List? ==> r == value.items
    ensures !value.Null? && !value.List? ==> r == [value]
  {
    match value
    case Null => []
    case List(xs) => xs
    case _ => [value]
  }

  /** `first_non_none(*args)`: the first argument that is not `None`. */
  method FirstNonNone(args: seq<Value>) returns (r: Value)
    ensures r.Null? <==> forall i :: 0 <= i < |args| ==> args[i].Null?
    ensures !r.Null? ==> exists i :: 0 <= i < |args| && args[i] == r &&
                                    forall j :: 0 <= j < i ==> args[j].Null?
  {
    var n := 0;
    while n < |args|
      invariant 0 <= n <= |args|
      invariant forall j :: 0 <= j < n ==> args[j].Null?
    {
      if !args[n].Null? {
        return args[n];
      }
      n := n + 1;
    }
    return Null;
  }

  /** `clamp(value, min_value, max_value)` over integers. */
  function Clamp(value: int, lo: int, hi: int): (r: int)
    ensures lo <= hi ==> lo <= r <= hi
    ensures lo <= value <= hi ==> r == value
    ensures lo <= hi && value < lo ==> r == lo
    ensures lo <= hi && value > hi ==> r == hi
    ensures lo > hi ==> r == lo
  {
    var inner := if hi < value then hi else value;
    if lo < inner then inner else lo
  }

  // =====================================================================
  // Flattening

  /** The key `flatten_dict` gives child `k` under `parent`: the parent and
      the separator are prefixed only when the parent is non-empty. */
  function ChildKey(parent: string, k: string, sep: string): string {
    if parent != "" then parent + sep + k else k
  }

  /** `flatten_dict(v, parent, sep)`: a nested dict is flattened on its own
      (under its joined key) and its items spliced in; `dict(items)` then
      keeps one entry per key. No value of the result is a dict. */
  function FlattenDict(v: Value, parent: string, sep: string): (r: Dict<string, Value>)
    requires v.Dict?
    ensures forall e :: e in r ==> !e.1.Dict?
    decreases v, |v.entries| + 1
  {
    var items := FlattenItems(v, 0, parent, sep);
    UpdateEntries([], items, (x: Value) => !x.Dict?);
    FromPairs(items)
  }

  /** The items the loop of `flatten_dict` collects from entry `i` on. */
  function FlattenItems(d: Value, i: nat, parent: string, sep: string): (items: seq<(string, Value)>)
    requires d.Dict? && i <= |d.entries|
    ensures forall e :: e in items ==> !e.1.Dict?
    decreases d, |d.entries| - i
  {
    if i == |d.entries| then []
    else
      assert d.entries[i] in d.entries;
      var (k, v) := d.entries[i];
      var key := ChildKey(parent, k, sep);
      (if v.Dict? then FlattenDict(v, key, sep) else [(key, v)]) + FlattenItems(d, i + 1, parent, sep)
  }

  /** One key of `unflatten_dict`: `d = d.setdefault(part, {})` along all but
      the last part, then `d[last] = value`. Meeting a value that is not a
      dict fails as in Python: `setdefault` on it is an `AttributeError`,
      item assignment on it a `TypeError`. */
  function InsertPath(d: Dict<string, Value>, parts: seq<string>, value: Value): (r: Result<Dict<string, Value>>)
    requires parts != []
    decreases |parts|
  {
    if |parts| == 1 then Ok(PyDict.Set(d, parts[0], value))
    else
      var child := Lookup(d, parts[0]).GetOr(EmptyDict);
      if !child.Dict? then Err(if |parts| == 2 then TypeError else AttributeError)
      else
        var inner :- InsertPath(child.entries, parts[1..], value);
        Ok(PyDict.Set(d, parts[0], Dict(inner)))
  }

  /** The loop of `unflatten_dict` over `items`, building on `acc`. */
  function UnflattenItems(acc: Dict<string, Value>, items: Dict<string, Value>, sep: string): (r: Result<Dict<string, Value>>)
    requires sep != []
    decreases |items|
  {
    if items == [] then Ok(acc)
    else
      var next :- InsertPath(acc, Split(items[0].0, sep), items[0].1);
      UnflattenItems(next, items[1..], sep)
  }

  /** `unflatten_dict(data, sep)`. `str.split` rejects an empty separator,
      which is reached only when there is a key to split. */
  function UnflattenDict(data: Dict<string, Value>, sep: string): (r: Result<Dict<string, Value>>)
    ensures sep == "" ==> (r.Err? <==> data != [])
  {
    if data == [] then Ok([])
    else if sep == "" then Err(ValueError)
    else UnflattenItems([], data, sep)
  }

  /** One step of `unflatten_dict` is `safe_set` with `create` on: the two
      succeed together and build the same dict; the failures are the two
      Python errors for a non-dict on the way. */
  lemma {:induction false} InsertPathIsSetPath(d: Dict<string, Value>, parts: seq<string>, value: Value)
    requires parts != []
    ensures InsertPath(d, parts, value).Ok? <==> SetPath(d, parts, value, true).Some?
    ensures InsertPath(d, parts, value).Ok? ==> InsertPath(d, parts, value).value == SetPath(d, parts, value, true).value
    ensures InsertPath(d, parts, value).Err? ==> InsertPath(d, parts, value).error in {TypeError, AttributeError}
    decreases |parts|
  {
    if |parts| > 1 {
      var child := Lookup(d, parts[0]).GetOr(EmptyDict);
      if child.Dict? {
        InsertPathIsSetPath(child.entries, parts[1..], value);
      }
    }
  }

  /** After one step of `unflatten_dict` the value sits at the nested path
      given by the key's parts, whenever every existing intermediate is a
      dict; otherwise the step fails. */
  lemma InsertPathThenGet(d: Dict<string, Value>, parts: seq<string>, value: Value, default: Value)
    requires parts != []
    ensures InsertPath(d, parts, value).Ok? <==> PathOpen(d, parts, true)
    ensures InsertPath(d, parts, value).Ok? ==> GetPath(Dict(InsertPath(d, parts, value).value), parts, default) == value
  {
    InsertPathIsSetPath(d, parts, value);
    SetPathThenGet(d, parts, value, true, default);
  }

  // ---------------------------------------------------------------------
  // The flatten/unflatten round trip

  /** No key at any depth of `v` holds the character `c`. */
  ghost predicate KeysAvoid(v: Value, c: char)
    decreases v
  {
    v.Dict? ==> forall j :: 0 <= j < |v.entries| ==> c !in v.entries[j].0 && KeysAvoid(v.entries[j].1, c)
  }

  /** No dict nested in `v` is empty. */
  ghost predicate NoEmptyNested(v: Value)
    decreases v
  {
    v.Dict? ==> forall j :: 0 <= j < |v.entries| ==>
      (v.entries[j].1.Dict? ==> v.entries[j].1.entries != []) && NoEmptyNested(v.entries[j].1)
  }

  /** The leaves of `d` from entry `i` on, each with its path of keys. */
  function LeafPaths(d: Value, i: nat): seq<(seq<string>, Value)>
    requires d.Dict? && i <= |d.entries|
    decreases d, |d.entries| - i
  {
    if i == |d.entries| then []
    else
      assert d.entries[i] in d.entries;
      var (k, v) := d.entries[i];
      (if v.Dict? then Prefix(k, LeafPaths(v, 0)) else [([k], v)]) + LeafPaths(d, i + 1)
  }

  function Prefix(k: string, ps: seq<(seq<string>, Value)>): (r: seq<(seq<string>, Value)>)
    ensures |r| == |ps| && forall j :: 0 <= j < |ps| ==> r[j] == ([k] + ps[j].0, ps[j].1)
  {
    seq(|ps|, j requires 0 <= j < |ps| => ([k] + ps[j].0, ps[j].1))
  }

  /** The flat key of path `p` below `parent`. */
  function KeyOf(parent: string, p: seq<string>, sep: string): string {
    if parent != "" then parent + sep + Join(p, sep) else Join(p, sep)
  }

  function Keyed(parent: string, ps: seq<(seq<string>, Value)>, sep: string): (r: Dict<string, Value>)
    ensures |r| == |ps| && forall j :: 0 <= j < |ps| ==> r[j] == (KeyOf(parent, ps[j].0, sep), ps[j].1)
  {
    seq(|ps|, j requires 0 <= j < |ps| => (KeyOf(parent, ps[j].0, sep), ps[j].1))
  }

  /** Every leaf path is non-empty, starts with a key of the entries it was
      taken from, and ends at a value that is not a dict. */
  lemma {:induction false} LeafShape(d: Value, i: nat)
    requires d.Dict? && i <= |d.entries|
    ensures forall j :: 0 <= j < |LeafPaths(d, i)| ==>
      LeafPaths(d, i)[j].0 != [] && LeafPaths(d, i)[j].0[0] in Keys(d.entries[i..]) && !LeafPaths(d, i)[j].1.Dict?
    decreases d, |d.entries| - i
  {
    if i < |d.entries| {
      assert d.entries[i] in d.entries;
      var (k, v) := d.entries[i];
      var here := if v.Dict? then Prefix(k, LeafPaths(v, 0)) else [([k], v)];
      var rest := LeafPaths(d, i + 1);
      assert LeafPaths(d, i) == here + rest;
      LeafShape(d, i + 1);
      if v.Dict? {
        LeafShape(v, 0);
        PrefixShape(k, LeafPaths(v, 0));
      }
      var ks := Keys(d.entries[i..]);
      assert ks == [k] + Keys(d.entries[i + 1..]) by {
        KeysTail(d.entries[i..]);
        assert d.entries[i..][1..] == d.entries[i + 1..];
      }
      ShapeJoin(here, rest, k, Keys(d.entries[i + 1..]));
    }
  }

  lemma PrefixShape(k: string, ps: seq<(seq<string>, Value)>)
    requires forall j :: 0 <= j < |ps| ==> !ps[j].1.Dict?
    ensures forall j :: 0 <= j < |Prefix(k, ps)| ==>
      Prefix(k, ps)[j].0 != [] && Prefix(k, ps)[j].0[0] == k && !Prefix(k, ps)[j].1.Dict?
  {
  }

  lemma ShapeJoin(here: seq<(seq<string>, Value)>, rest: seq<(seq<string>, Value)>, k: string, ks: seq<string>)
    requires forall j :: 0 <= j < |here| ==> here[j].0 != [] && here[j].0[0] == k && !here[j].1.Dict?
    requires forall j :: 0 <= j < |rest| ==> rest[j].0 != [] && rest[j].0[0] in ks && !rest[j].1.Dict?
    ensures forall j :: 0 <= j < |here + rest| ==>
      (here + rest)[j].0 != [] && (here + rest)[j].0[0] in [k] + ks && !(here + rest)[j].1.Dict?
  {
    forall j | 0 <= j < |here + rest|
      ensures (here + rest)[j].0 != [] && (here + rest)[j].0[0] in [k] + ks && !(here + rest)[j].1.Dict?
    {
      if j >= |here| {
        assert (here + rest)[j] == rest[j - |here|];
      }
    }
  }

  /** The keys on every leaf path avoid `c` when the keys of `d` do. */
  lemma {:induction false} LeafAvoid(d: Value, i: nat, c: char)
    requires d.Dict? && i <= |d.entries| && KeysAvoid(d, c)
    ensures forall j :: 0 <= j < |LeafPaths(d, i)| ==> forall p :: p in LeafPaths(d, i)[j].0 ==> c !in p
    decreases d, |d.entries| - i
  {
    if i < |d.entries| {
      assert d.entries[i] in d.entries;
      var (k, v) := d.entries[i];
      var here := if v.Dict? then Prefix(k, LeafPaths(v, 0)) else [([k], v)];
      assert LeafPaths(d, i) == here + LeafPaths(d, i + 1);
      LeafAvoid(d, i + 1, c);
      if v.Dict? {
        LeafAvoid(v, 0, c);
      }
    }
  }

  /** A dict with no empty nested dict has a leaf for every entry, so a
      non-empty one has at least one leaf. */
  lemma {:induction false} LeafNonEmpty(d: Value)
    requires d.Dict? && d.entries != [] && NoEmptyNested(d)
    ensures LeafPaths(d, 0) != []
    decreases d
  {
    assert d.entries[0] in d.entries;
    var (k, v) := d.entries[0];
    if v.Dict? {
      LeafNonEmpty(v);
    }
  }

  /** Distinct keys at every level give distinct leaf paths. */
  lemma {:induction false} LeafDistinct(d: Value, i: nat)
    requires d.Dict? && i <= |d.entries| && DeepWf(d)
    ensures forall a, b :: 0 <= a < b < |LeafPaths(d, i)| ==> LeafPaths(d, i)[a].0 != LeafPaths(d, i)[b].0
    decreases d, |d.entries| - i
  {
    if i < |d.entries| {
      assert d.entries[i] in d.entries;
      var (k, v) := d.entries[i];
      var here := if v.Dict? then Prefix(k, LeafPaths(v, 0)) else [([k], v)];
      var rest := LeafPaths(d, i + 1);
      var ps := LeafPaths(d, i);
      assert ps == here + rest;
      LeafDistinct(d, i + 1);
      LeafShape(d, i + 1);
      WfRest(d.entries, i);
      if v.Dict? {
        DeepWfFromAll(d, 0, i);
        LeafDistinct(v, 0);
        PrefixDistinct(k, LeafPaths(v, 0));
      }
      DistinctJoin(here, rest, k, Keys(d.entries[i + 1..]));
    }
  }

  /** Putting the same key in front keeps distinct paths distinct. */
  lemma PrefixDistinct(k: string, ps: seq<(seq<string>, Value)>)
    requires forall a, b :: 0 <= a < b < |ps| ==> ps[a].0 != ps[b].0
    ensures forall j :: 0 <= j < |ps| ==> Prefix(k, ps)[j].0 != [] && Prefix(k, ps)[j].0[0] == k
    ensures forall a, b :: 0 <= a < b < |ps| ==> Prefix(k, ps)[a].0 != Prefix(k, ps)[b].0
  {
    var r := Prefix(k, ps);
    forall a, b | 0 <= a < b < |ps| ensures r[a].0 != r[b].0 {
      assert r[a].0[1..] == ps[a].0;
      assert r[b].0[1..] == ps[b].0;
    }
  }

  /** Paths all headed by `k`, followed by paths headed by other keys, stay
      distinct when each group is. */
  lemma DistinctJoin(here: seq<(seq<string>, Value)>, rest: seq<(seq<string>, Value)>, k: string, others: seq<string>)
    requires forall a, b :: 0 <= a < b < |here| ==> here[a].0 != here[b].0
    requires forall a, b :: 0 <= a < b < |rest| ==> rest[a].0 != rest[b].0
    requires forall j :: 0 <= j < |here| ==> here[j].0 != [] && here[j].0[0] == k
    requires forall j :: 0 <= j < |rest| ==> rest[j].0 != [] && rest[j].0[0] in others
    requires k !in others
    ensures forall a, b :: 0 <= a < b < |here + rest| ==> (here + rest)[a].0 != (here + rest)[b].0
  {
    var ps := here + rest;
    forall a, b | 0 <= a < b < |ps| ensures ps[a].0 != ps[b].0 {
      if b >= |here| {
        assert ps[b] == rest[b - |here|];
        if a >= |here| {
          assert ps[a] == rest[a - |here|];
        }
      }
    }
  }

  /** Distinct paths whose keys avoid the separator's first character get
      distinct flat keys. */
  lemma {:induction false} KeyedWf(parent: string, ps: seq<(seq<string>, Value)>, sep: string)
    requires sep != []
    requires forall j :: 0 <= j < |ps| ==> ps[j].0 != [] && forall p :: p in ps[j].0 ==> sep[0] !in p
    requires forall a, b :: 0 <= a < b < |ps| ==> ps[a].0 != ps[b].0
    ensures Wf(Keyed(parent, ps, sep))
  {
    var r := Keyed(parent, ps, sep);
    forall a, b | 0 <= a < b < |r| ensures r[a].0 != r[b].0 {
      var x, y := Join(ps[a].0, sep), Join(ps[b].0, sep);
      SplitJoin(ps[a].0, sep);
      SplitJoin(ps[b].0, sep);
      assert x != y;
      if parent != "" {
        var n := |parent| + |sep|;
        assert r[a].0[n..] == x && r[b].0[n..] == y;
      }
    }
  }

  lemma KeyedAppend(parent: string, xs: seq<(seq<string>, Value)>, ys: seq<(seq<string>, Value)>, sep: string)
    ensures Keyed(parent, xs + ys, sep) == Keyed(parent, xs, sep) + Keyed(parent, ys, sep)
  {
  }

  /** The items `flatten_dict` collects are the leaf paths joined with `sep`
      below `parent`. */
  lemma {:induction false} FlattenItemsKeyed(d: Value, i: nat, parent: string, sep: string)
    requires d.Dict? && i <= |d.entries| && sep != []
    requires DeepWf(d) && KeysAvoid(d, sep[0])
    requires parent == "" ==> forall j :: i <= j < |d.entries| && d.entries[j].1.Dict? ==> d.entries[j].0 != ""
    ensures FlattenItems(d, i, parent, sep) == Keyed(parent, LeafPaths(d, i), sep)
    decreases d, |d.entries| - i, 1
  {
    if i < |d.entries| {
      FlattenItemsKeyed(d, i + 1, parent, sep);
      EntryKeyed(d, i, parent, sep);
      UnfoldEntry(d, i, parent, sep);
      KeyedAppend(parent, EntryPaths(d, i), LeafPaths(d, i + 1), sep);
    }
  }

  /** The items `flatten_dict` takes from entry `i`. */
  function EntryItems(d: Value, i: nat, parent: string, sep: string): seq<(string, Value)>
    requires d.Dict? && i < |d.entries|
  {
    assert d.entries[i] in d.entries;
    var (k, v) := d.entries[i];
    if v.Dict? then FlattenDict(v, ChildKey(parent, k, sep), sep) else [(ChildKey(parent, k, sep), v)]
  }

  /** The leaf paths of entry `i`. */
  function EntryPaths(d: Value, i: nat): seq<(seq<string>, Value)>
    requires d.Dict? && i < |d.entries|
  {
    assert d.entries[i] in d.entries;
    var (k, v) := d.entries[i];
    if v.Dict? then Prefix(k, LeafPaths(v, 0)) else [([k], v)]
  }

  lemma UnfoldEntry(d: Value, i: nat, parent: string, sep: string)
    requires d.Dict? && i < |d.entries|
    ensures FlattenItems(d, i, parent, sep) == EntryItems(d, i, parent, sep) + FlattenItems(d, i + 1, parent, sep)
    ensures LeafPaths(d, i) == EntryPaths(d, i) + LeafPaths(d, i + 1)
  {
  }

  /** The items of entry `i` are its leaf paths joined below `parent`. */
  lemma {:induction false} EntryKeyed(d: Value, i: nat, parent: string, sep: string)
    requires d.Dict? && i < |d.entries| && sep != []
    requires DeepWf(d) && KeysAvoid(d, sep[0])
    requires parent == "" ==> forall j :: i <= j < |d.entries| && d.entries[j].1.Dict? ==> d.entries[j].0 != ""
    ensures EntryItems(d, i, parent, sep) == Keyed(parent, EntryPaths(d, i), sep)
    decreases d, |d.entries| - i, 0
  {
    assert d.entries[i] in d.entries;
    var (k, v) := d.entries[i];
    if v.Dict? {
      DeepWfFromAll(d, 0, i);
      FlattenChildKeyed(v, k, parent, sep);
    } else {
      assert KeyOf(parent, [k], sep) == ChildKey(parent, k, sep);
    }
  }

  /** A nested dict flattened under its joined key gives its leaf paths
      prefixed with its own key. */
  lemma {:induction false} FlattenChildKeyed(v: Value, k: string, parent: string, sep: string)
    requires v.Dict? && sep != [] && DeepWf(v) && KeysAvoid(v, sep[0])
    requires parent != "" || k != ""
    ensures FlattenDict(v, ChildKey(parent, k, sep), sep) == Keyed(parent, Prefix(k, LeafPaths(v, 0)), sep)
    decreases v, |v.entries| + 1, 0
  {
    var key := ChildKey(parent, k, sep);
    var qs := LeafPaths(v, 0);
    FlattenItemsKeyed(v, 0, key, sep);
    LeafShape(v, 0);
    LeafAvoid(v, 0, sep[0]);
    LeafDistinct(v, 0);
    KeyedWf(key, qs, sep);
    FromPairsWf(Keyed(key, qs, sep));
    KeyedPrefix(parent, k, qs, sep);
  }

  /** Keys below the child key are the parent's keys of the paths headed by `k`. */
  lemma KeyedPrefix(parent: string, k: string, qs: seq<(seq<string>, Value)>, sep: string)
    requires parent != "" || k != ""
    requires forall j :: 0 <= j < |qs| ==> qs[j].0 != []
    ensures Keyed(ChildKey(parent, k, sep), qs, sep) == Keyed(parent, Prefix(k, qs), sep)
  {
    var key := ChildKey(parent, k, sep);
    forall j | 0 <= j < |qs| ensures KeyOf(key, qs[j].0, sep) == KeyOf(parent, [k] + qs[j].0, sep) {
      assert ([k] + qs[j].0)[1..] == qs[j].0;
    }
  }

  /** `unflatten_dict`'s loop over paths rather than flat keys. */
  function PathFold(acc: Dict<string, Value>, ps: seq<(seq<string>, Value)>): Result<Dict<string, Value>>
    requires forall j :: 0 <= j < |ps| ==> ps[j].0 != []
    decreases |ps|
  {
    if ps == [] then Ok(acc)
    else
      var next :- InsertPath(acc, ps[0].0, ps[0].1);
      PathFold(next, ps[1..])
  }

  /** Splitting the flat keys recovers the paths. */
  lemma {:induction false} UnflattenKeyed(acc: Dict<string, Value>, ps: seq<(seq<string>, Value)>, sep: string)
    requires sep != []
    requires forall j :: 0 <= j < |ps| ==> ps[j].0 != [] && forall p :: p in ps[j].0 ==> sep[0] !in p
    ensures UnflattenItems(acc, Keyed("", ps, sep), sep) == PathFold(acc, ps)
    decreases |ps|
  {
    if ps != [] {
      var items := Keyed("", ps, sep);
      SplitJoin(ps[0].0, sep);
      assert items[1..] == Keyed("", ps[1..], sep);
      var r := InsertPath(acc, ps[0].0, ps[0].1);
      if r.Ok? {
        UnflattenKeyed(r.value, ps[1..], sep);
      }
    }
  }

  lemma {:induction false} PathFoldAppend(acc: Dict<string, Value>, xs: seq<(seq<string>, Value)>, ys: seq<(seq<string>, Value)>)
    requires forall j :: 0 <= j < |xs| ==> xs[j].0 != []
    requires forall j :: 0 <= j < |ys| ==> ys[j].0 != []
    ensures PathFold(acc, xs + ys) == match PathFold(acc, xs) { case Ok(m) => PathFold(m, ys) case Err(e) => Err(e) }
    decreases |xs|
  {
    if xs == [] {
      assert xs + ys == ys;
    } else {
      assert (xs + ys)[1..] == xs[1..] + ys;
      var r := InsertPath(acc, xs[0].0, xs[0].1);
      if r.Ok? {
        PathFoldAppend(r.value, xs[1..], ys);
      }
    }
  }

  /** Inserting paths that all start with `k` builds the dict under `k` on
      its own and sets it once. */
  lemma {:induction false} PathFoldPrefix(acc: Dict<string, Value>, k: string, qs: seq<(seq<string>, Value)>)
    requires qs != [] && forall j :: 0 <= j < |qs| ==> qs[j].0 != []
    requires Lookup(acc, k).GetOr(EmptyDict).Dict?
    ensures PathFold(acc, Prefix(k, qs)) ==
      match PathFold(Lookup(acc, k).GetOr(EmptyDict).entries, qs) {
        case Ok(c) => Ok(PyDict.Set(acc, k, Dict(c)))
        case Err(e) => Err(e)
      }
    decreases |qs|
  {
    var child := Lookup(acc, k).GetOr(EmptyDict);
    var ps := Prefix(k, qs);
    assert ps[0].0[1..] == qs[0].0;
    var inner := InsertPath(child.entries, qs[0].0, qs[0].1);
    if inner.Ok? {
      var acc1 := PyDict.Set(acc, k, Dict(inner.value));
      assert InsertPath(acc, ps[0].0, ps[0].1) == Ok(acc1);
      if |qs| > 1 {
        assert ps[1..] == Prefix(k, qs[1..]);
        LookupSet(acc, k, Dict(inner.value), k);
        PathFoldPrefix(acc1, k, qs[1..]);
        var r := PathFold(inner.value, qs[1..]);
        if r.Ok? {
          SetSet(acc, k, Dict(inner.value), Dict(r.value));
        }
      }
    }
  }

  /** Inserting the leaf paths of `d` from entry `i` on into its first `i`
      entries rebuilds `d`. */
  lemma {:induction false} PathFoldLeaves(d: Value, i: nat)
    requires d.Dict? && i <= |d.entries| && DeepWf(d) && NoEmptyNested(d)
    ensures forall j :: 0 <= j < |LeafPaths(d, i)| ==> LeafPaths(d, i)[j].0 != []
    ensures PathFold(d.entries[..i], LeafPaths(d, i)) == Ok(d.entries)
    decreases d, |d.entries| - i
  {
    LeafShape(d, i);
    if i < |d.entries| {
      assert d.entries[i] in d.entries;
      var (k, v) := d.entries[i];
      var here := if v.Dict? then Prefix(k, LeafPaths(v, 0)) else [([k], v)];
      var rest := LeafPaths(d, i + 1);
      assert LeafPaths(d, i) == here + rest;
      LeafShape(d, i + 1);
      PathFoldLeaves(d, i + 1);
      forall j | 0 <= j < |here| ensures here[j].0 != [] {
        assert here[j] == LeafPaths(d, i)[j];
      }
      FoldEntry(d, i, here);
      PathFoldAppend(d.entries[..i], here, rest);
    } else {
      assert d.entries[..i] == d.entries;
    }
  }

  /** Inserting the leaf paths of entry `i` into the entries before it
      appends that entry. */
  lemma {:induction false} FoldEntry(d: Value, i: nat, here: seq<(seq<string>, Value)>)
    requires d.Dict? && i < |d.entries| && DeepWf(d) && NoEmptyNested(d)
    requires here == if d.entries[i].1.Dict? then Prefix(d.entries[i].0, LeafPaths(d.entries[i].1, 0))
                     else [([d.entries[i].0], d.entries[i].1)]
    requires forall j :: 0 <= j < |here| ==> here[j].0 != []
    ensures PathFold(d.entries[..i], here) == Ok(d.entries[..i + 1])
    decreases d, 0
  {
    assert d.entries[i] in d.entries;
    var (k, v) := d.entries[i];
    var prior := d.entries[..i];
    WfBefore(d.entries, i);
    SetAbsent(prior, k, v);
    assert prior + [(k, v)] == d.entries[..i + 1];
    assert Lookup(prior, k) == Option.None;
    if v.Dict? {
      var qs := LeafPaths(v, 0);
      DeepWfFromAll(d, 0, i);
      LeafNonEmpty(v);
      LeafShape(v, 0);
      PathFoldLeaves(v, 0);
      assert v.entries[..0] == [];
      PathFoldPrefix(prior, k, qs);
    } else {
      assert InsertPath(prior, [k], v) == Ok(prior + [(k, v)]);
    }
  }


  /** `unflatten_dict(flatten_dict(d, "", sep), sep) == d` when every dict in
      `d` has distinct keys, no key holds the separator's first character, no
      nested dict is empty and no top-level dict value sits under `""`. */
  lemma FlattenRoundTrip(d: Dict<string, Value>, sep: string)
    requires sep != [] && DeepWf(Dict(d)) && KeysAvoid(Dict(d), sep[0]) && NoEmptyNested(Dict(d))
    requires forall j :: 0 <= j < |d| && d[j].1.Dict? ==> d[j].0 != ""
    ensures UnflattenDict(FlattenDict(Dict(d), "", sep), sep) == Ok(d)
  {
    var v := Dict(d);
    var ps := LeafPaths(v, 0);
    FlattenItemsKeyed(v, 0, "", sep);
    LeafShape(v, 0);
    LeafAvoid(v, 0, sep[0]);
    LeafDistinct(v, 0);
    KeyedWf("", ps, sep);
    FromPairsWf(Keyed("", ps, sep));
    UnflattenKeyed([], ps, sep);
    PathFoldLeaves(v, 0);
    assert d[..0] == [];
  }

  // =====================================================================
  // Dictionary operations

  /** `merge_dicts(dict1, dict2)`: `dict2` wins, except that two dicts under
      the same key are merged recursively. */
  function MergeDicts(d1: Dict<string, Value>, d2: Dict<string, Value>): Dict<string, Value> {
    MergeFrom(d1, Dict(d2), 0)
  }

  /** Overlays the items of `upd` from position `i` on. */
  function MergeFrom(acc: Dict<string, Value>, upd: Value, i: nat): Dict<string, Value>
    requires upd.Dict? && i <= |upd.entries|
    decreases upd, |upd.entries| - i
  {
    if i == |upd.entries| then acc
    else
      var (k, v) := upd.entries[i];
      assert upd.entries[i] in upd.entries;
      MergeFrom(PyDict.Set(acc, k, MergedValue(Lookup(acc, k), v)), upd, i + 1)
  }

  /** The value `merge_dicts` stores under a key of the overriding dict:
      two dicts are merged, otherwise the overriding value wins. */
  function MergedValue(prior: Option<Value>, v: Value): (r: Value)
    ensures !v.Dict? ==> r == v
    ensures r.Dict? <==> v.Dict?
    decreases v, if v.Dict? then |v.entries| + 1 else 0
  {
    if prior.Some? && prior.value.Dict? && v.Dict? then Dict(MergeFrom(prior.value.entries, v, 0)) else v
  }

  /** Overlaying from position `i`: later items of `upd` override earlier
      results key by key. */
  lemma {:induction false} LookupMergeFrom(acc: Dict<string, Value>, upd: Value, i: nat, k: string)
    requires upd.Dict? && i <= |upd.entries| && Wf(upd.entries)
    ensures Lookup(MergeFrom(acc, upd, i), k) ==
      if k in Keys(upd.entries[i..]) then Some(MergedValue(Lookup(acc, k), Lookup(upd.entries[i..], k).value))
      else Lookup(acc, k)
    decreases |upd.entries| - i
  {
    var es := upd.entries;
    if i < |es| {
      var k0 := es[i].0;
      var m := MergedValue(Lookup(acc, k0), es[i].1);
      var acc' := PyDict.Set(acc, k0, m);
      assert MergeFrom(acc, upd, i) == MergeFrom(acc', upd, i + 1);
      LookupMergeFrom(acc', upd, i + 1, k);
      LookupSet(acc, k0, m, k);
      LookupFrom(es, i, k);
      if k == k0 {
        WfRest(es, i);
      }
    }
  }

  /** `merge_dicts` law: the keys of `dict2` hold `dict2`'s values (merged when
      both sides are dicts); the other keys keep `dict1`'s values. */
  lemma LookupMerge(d1: Dict<string, Value>, d2: Dict<string, Value>, k: string)
    requires Wf(d2)
    ensures Lookup(MergeDicts(d1, d2), k) ==
      if k in Keys(d2) then Some(MergedValue(Lookup(d1, k), Lookup(d2, k).value)) else Lookup(d1, k)
  {
    LookupMergeFrom(d1, Dict(d2), 0, k);
    assert d2[0..] == d2;
  }

  /** `merge_dicts` keeps `dict1`'s key order and appends `dict2`'s new keys. */
  lemma {:induction false} KeysMergeFrom(acc: Dict<string, Value>, upd: Value, i: nat)
    requires upd.Dict? && i <= |upd.entries|
    ensures Keys(MergeFrom(acc, upd, i)) == Keys(acc) + NewKeys(acc, upd.entries[i..])
    decreases |upd.entries| - i
  {
    var es := upd.entries;
    if i < |es| {
      var k0, v0 := es[i].0, es[i].1;
      var m := MergedValue(Lookup(acc, k0), v0);
      assert MergeFrom(acc, upd, i) == MergeFrom(PyDict.Set(acc, k0, m), upd, i + 1);
      KeysMergeFrom(PyDict.Set(acc, k0, m), upd, i + 1);
      assert es[i..] == [(k0, v0)] + es[i + 1..];
      KeysSetThenNew(acc, k0, m, v0, es[i + 1..]);
    }
  }

  lemma KeysMerge(d1: Dict<string, Value>, d2: Dict<string, Value>)
    ensures Keys(MergeDicts(d1, d2)) == Keys(d1) + NewKeys(d1, d2)
  {
    KeysMergeFrom(d1, Dict(d2), 0);
    assert d2[0..] == d2;
  }

  /** The merge of two well-formed dicts is well formed. */
  lemma {:induction false} WfMergeFrom(acc: Dict<string, Value>, upd: Value, i: nat)
    requires upd.Dict? && i <= |upd.entries| && Wf(acc)
    ensures Wf(MergeFrom(acc, upd, i))
    decreases |upd.entries| - i
  {
    if i < |upd.entries| {
      var (k0, v0) := upd.entries[i];
      WfSet(acc, k0, MergedValue(Lookup(acc, k0), v0));
      WfMergeFrom(PyDict.Set(acc, k0, MergedValue(Lookup(acc, k0), v0)), upd, i + 1);
    }
  }

  /** `deep_merge_dict(target, source)` is `merge_dicts(target, source)`. */
  function DeepMergeDict(target: Dict<string, Value>, source: Dict<string, Value>): (r: Dict<string, Value>)
    ensures r == MergeDicts(target, source)
  {
    MergeDicts(target, source)
  }

  /** `filter_dict(data, keys)`: the items of `data` whose key is listed. */
  function FilterDict(data: Dict<string, Value>, keys: seq<string>): (r: Dict<string, Value>)
    ensures forall e :: e in r <==> e in data && e.0 in keys
    ensures |r| <= |data|
  {
    if data == [] then []
    else if data[0].0 in keys then [data[0]] + FilterDict(data[1..], keys)
    else FilterDict(data[1..], keys)
  }

  /** `filter_dict` keeps exactly the listed keys, with their values. */
  lemma {:induction false} LookupFilter(data: Dict<string, Value>, keys: seq<string>, k: string)
    ensures Lookup(FilterDict(data, keys), k) == if k in keys then Lookup(data, k) else Option.None
  {
    if data != [] {
      LookupFilter(data[1..], keys, k);
    }
  }

  /** The names of `names` that are listed in `keys`, in their order. */
  function Listed(names: seq<string>, keys: seq<string>): seq<string> {
    if names == [] then [] else (if names[0] in keys then [names[0]] else []) + Listed(names[1..], keys)
  }

  /** `filter_dict` keeps the listed keys in the order `data` has them. */
  lemma {:induction false} KeysFilter(data: Dict<string, Value>, keys: seq<string>)
    ensures Keys(FilterDict(data, keys)) == Listed(Keys(data), keys)
  {
    if data != [] {
      KeysFilter(data[1..], keys);
      KeysTail(data);
      var r := FilterDict(data, keys);
      if data[0].0 in keys {
        assert r == [data[0]] + FilterDict(data[1..], keys);
        KeysTail(r);
        assert r[1..] == FilterDict(data[1..], keys);
      }
    }
  }

  /** `safe_get` after `path.split(".")`: follow the keys while the current
      value is a dict holding the next key; otherwise the default. */
  function GetPath(current: Value, keys: seq<string>, default: Value): (r: Value)
    ensures keys == [] ==> r == current
    decreases |keys|
  {
    if keys == [] then current
    else match Child(current, keys[0])
      case Some(child) => GetPath(child, keys[1..], default)
      case None => default
  }

  /** `safe_get(data, path, default)`. */
  function SafeGet(data: Value, path: string, default: Value): Value {
    GetPath(data, Split(path, "."), default)
  }

  /** `safe_set` after `path.split(".")`, on a dict: `None` where the source
      returns `False` (an intermediate is not a dict, or is missing and
      `create` is off), which happens before anything is written. */
  function SetPath(current: Dict<string, Value>, keys: seq<string>, value: Value, create: bool): Option<Dict<string, Value>>
    requires keys != []
    decreases |keys|
  {
    if |keys| == 1 then Some(PyDict.Set(current, keys[0], value))
    else
      var existing := Lookup(current, keys[0]);
      if existing.None? && !create then Option.None
      else
        var child := existing.GetOr(EmptyDict);
        if !child.Dict? then Option.None
        else match SetPath(child.entries, keys[1..], value, create)
          case Some(c) => Some(PyDict.Set(current, keys[0], Dict(c)))
          case None => Option.None
  }

  /** `safe_set(data, path, value, create)`: whether it succeeded, and `data`
      afterwards (unchanged on failure). */
  function SafeSet(data: Dict<string, Value>, path: string, value: Value, create: bool): (r: (bool, Dict<string, Value>))
    ensures !r.0 ==> r.1 == data
  {
    match SetPath(data, Split(path, "."), value, create)
    case Some(d) => (true, d)
    case None => (false, data)
  }

  /** Every intermediate on `keys` that exists is a dict, and with `create`
      off every one of them exists. */
  predicate PathOpen(current: Dict<string, Value>, keys: seq<string>, create: bool)
    decreases |keys|
  {
    |keys| <= 1 ||
    match Lookup(current, keys[0])
    case None => create
    case Some(child) => child.Dict? && PathOpen(child.entries, keys[1..], create)
  }

  /** `safe_set` succeeds exactly when the path is open, and a successful
      `safe_set` is seen by `safe_get` on the same keys. */
  lemma SetPathThenGet(current: Dict<string, Value>, keys: seq<string>, value: Value, create: bool, default: Value)
    requires keys != []
    ensures SetPath(current, keys, value, create).Some? <==> PathOpen(current, keys, create)
    ensures SetPath(current, keys, value, create).Some? ==>
      GetPath(Dict(SetPath(current, keys, value, create).value), keys, default) == value
  {
    SetPathSome(current, keys, value, create);
    if SetPath(current, keys, value, create).Some? {
      SetPathGet(current, keys, value, create, default);
    }
  }

  lemma {:induction false} SetPathSome(current: Dict<string, Value>, keys: seq<string>, value: Value, create: bool)
    requires keys != []
    ensures SetPath(current, keys, value, create).Some? <==> PathOpen(current, keys, create)
    decreases |keys|
  {
    if |keys| > 1 {
      var existing := Lookup(current, keys[0]);
      if existing.Some? || create {
        var child := existing.GetOr(EmptyDict);
        if child.Dict? {
          SetPathSome(child.entries, keys[1..], value, create);
          if existing.None? {
            EmptyPathOpen(keys[1..], create);
          }
        }
      }
    }
  }

  lemma {:induction false} SetPathGet(current: Dict<string, Value>, keys: seq<string>, value: Value, create: bool, default: Value)
    requires keys != [] && SetPath(current, keys, value, create).Some?
    ensures GetPath(Dict(SetPath(current, keys, value, create).value), keys, default) == value
    decreases |keys|
  {
    var k := keys[0];
    if |keys| == 1 {
      LookupSet(current, k, value, k);
      assert keys[1..] == [];
    } else {
      var child := Lookup(current, k).GetOr(EmptyDict);
      var c := SetPath(child.entries, keys[1..], value, create).value;
      SetPathGet(child.entries, keys[1..], value, create, default);
      LookupSet(current, k, Dict(c), k);
    }
  }

  /** In a fresh dict every path is open when `create` is on. */
  lemma {:induction false} EmptyPathOpen(keys: seq<string>, create: bool)
    requires create
    ensures PathOpen([], keys, create)
    decreases |keys|
  {
  }

  /** The documented `safe_set`/`safe_get` round trip. */
  lemma SafeSetThenGet(data: Dict<string, Value>, path: string, value: Value, default: Value)
    requires PathOpen(data, Split(path, "."), true)
    ensures SafeSet(data, path, value, true).0
    ensures SafeGet(Dict(SafeSet(data, path, value, true).1), path, default) == value
  {
    SetPathThenGet(data, Split(path, "."), value, true, default);
  }

  /** `remove_none_values(data, recursive)`. */
  function RemoveNoneValues(data: Value, recursive: bool): (r: Dict<string, Value>)
    requires data.Dict?
    ensures forall e :: e in r ==> !e.1.Null?
    ensures Keys(r) == KeysWhere(data.entries, (v: Value) => !v.Null?)
  {
    RemoveNoneFrom(data, 0, recursive)
  }

  function RemoveNoneFrom(d: Value, i: nat, recursive: bool): (r: Dict<string, Value>)
    requires d.Dict? && i <= |d.entries|
    ensures forall e :: e in r ==> !e.1.Null?
    ensures Keys(r) == KeysWhere(d.entries[i..], (v: Value) => !v.Null?)
    decreases d, |d.entries| - i
  {
    if i == |d.entries| then []
    else
      var (k, v) := d.entries[i];
      assert d.entries[i] in d.entries;
      assert d.entries[i..] == [d.entries[i]] + d.entries[i + 1..];
      var rest := RemoveNoneFrom(d, i + 1, recursive);
      if v.Null? then rest
      else if recursive && v.Dict? then [(k, Dict(RemoveNoneFrom(v, 0, true)))] + rest
      else [(k, v)] + rest
  }

  /** The keys of the items whose value satisfies `keep`, in order. */
  function KeysWhere(d: Dict<string, Value>, keep: Value -> bool): seq<string> {
    if d == [] then []
    else if keep(d[0].1) then [d[0].0] + KeysWhere(d[1..], keep)
    else KeysWhere(d[1..], keep)
  }

  /** Each key of the result holds the original value, or, for a nested dict
      with `recursive` set, that dict with its own `None`s removed; a key
      whose value is `None` is gone. */
  lemma LookupRemoveNone(data: Value, recursive: bool, k: string)
    requires data.Dict? && Wf(data.entries)
    ensures Lookup(RemoveNoneValues(data, recursive), k) ==
      match Lookup(data.entries, k)
      case None => Option.None
      case Some(v) =>
        if v.Null? then Option.None
        else if recursive && v.Dict? then Some(Dict(RemoveNoneValues(v, true)))
        else Some(v)
  {
    assert data.entries[0..] == data.entries;
    LookupRemoveNoneFrom(data, 0, recursive, k);
  }

  lemma {:induction false} LookupRemoveNoneFrom(d: Value, i: nat, recursive: bool, k: string)
    requires d.Dict? && i <= |d.entries| && Wf(d.entries)
    ensures Lookup(RemoveNoneFrom(d, i, recursive), k) ==
      match Lookup(d.entries[i..], k)
      case None => Option.None
      case Some(v) =>
        if v.Null? then Option.None
        else if recursive && v.Dict? then Some(Dict(RemoveNoneValues(v, true)))
        else Some(v)
    decreases |d.entries| - i
  {
    if i < |d.entries| {
      var (k0, w) := d.entries[i];
      var r := RemoveNoneFrom(d, i, recursive);
      var rest := RemoveNoneFrom(d, i + 1, recursive);
      LookupRemoveNoneFrom(d, i + 1, recursive, k);
      LookupFrom(d.entries, i, k);
      if k == k0 {
        WfRest(d.entries, i);
      }
      if !w.Null? {
        assert r[0].0 == k0 && r[1..] == rest;
      }
    }
  }

  /** No `None` anywhere inside a dict. */
  ghost predicate NoNoneDeep(d: Value)
    decreases d
  {
    d.Dict? ==> NoNoneFrom(d, 0)
  }

  ghost predicate NoNoneFrom(d: Value, i: nat)
    requires d.Dict? && i <= |d.entries|
    decreases d, |d.entries| - i
  {
    i == |d.entries| ||
    (assert d.entries[i] in d.entries;
     !d.entries[i].1.Null? && NoNoneDeep(d.entries[i].1) && NoNoneFrom(d, i + 1))
  }

  /** With `recursive` set, no `None` remains at any depth. */
  lemma {:induction false} RemoveNoneDeep(d: Value, i: nat)
    requires d.Dict? && i <= |d.entries|
    ensures NoNoneFrom(Dict(RemoveNoneFrom(d, i, true)), 0)
    decreases d, |d.entries| - i
  {
    if i < |d.entries| {
      var (k, v) := d.entries[i];
      assert d.entries[i] in d.entries;
      var rest := RemoveNoneFrom(d, i + 1, true);
      RemoveNoneDeep(d, i + 1);
      var r := Dict(RemoveNoneFrom(d, i, true));
      if !v.Null? {
        if v.Dict? {
          RemoveNoneDeep(v, 0);
        }
        assert r.entries[1..] == rest;
        NoNoneFromShift(r, rest);
      }
    }
  }

  /** Dropping the first item of a `None`-free dict keeps it `None`-free, and
      adding a `None`-free first item to one does too. */
  lemma NoNoneFromShift(r: Value, rest: Dict<string, Value>)
    requires r.Dict? && r.entries != [] && r.entries[1..] == rest
    requires !r.entries[0].1.Null? && NoNoneDeep(r.entries[0].1)
    requires NoNoneFrom(Dict(rest), 0)
    ensures NoNoneFrom(r, 0)
  {
    NoNoneFromTail(r, Dict(rest), 1);
  }

  lemma {:induction false} NoNoneFromTail(r: Value, t: Value, i: nat)
    requires r.Dict? && t.Dict? && 1 <= i <= |r.entries| && r.entries[1..] == t.entries
    requires NoNoneFrom(t, i - 1)
    ensures NoNoneFrom(r, i)
    decreases |r.entries| - i
  {
    if i < |r.entries| {
      assert r.entries[i] == t.entries[i - 1];
      NoNoneFromTail(r, t, i + 1);
    }
  }

  /** The values `remove_empty_values` drops: `None`, `""`, `[]` and `{}`. */
  predicate IsEmptyValue(v: Value) {
    v == Null || v == Str("") || v == List([]) || v == Dict([])
  }

  /** `remove_empty_values(data, recursive)`. */
  function RemoveEmptyValues(data: Value, recursive: bool): (r: Dict<string, Value>)
    requires data.Dict?
    ensures forall e :: e in r ==> !IsEmptyValue(e.1)
  {
    RemoveEmptyFrom(data, 0, recursive)
  }

  function RemoveEmptyFrom(d: Value, i: nat, recursive: bool): (r: Dict<string, Value>)
    requires d.Dict? && i <= |d.entries|
    ensures forall e :: e in r ==> !IsEmptyValue(e.1)
    ensures forall e :: e in r ==> e.0 in Keys(d.entries[i..])
    decreases d, |d.entries| - i
  {
    if i == |d.entries| then []
    else
      var (k, v) := d.entries[i];
      assert d.entries[i] in d.entries;
      assert d.entries[i..] == [d.entries[i]] + d.entries[i + 1..];
      var rest := RemoveEmptyFrom(d, i + 1, recursive);
      if IsEmptyValue(v) then rest
      else if recursive && v.Dict? then
        var processed := RemoveEmptyFrom(v, 0, true);
        if processed != [] then [(k, Dict(processed))] + rest else rest
      else [(k, v)] + rest
  }

  /** Whether `remove_empty_values` keeps a value: it is not empty, and with
      `recursive` set a nested dict does not become empty once cleaned. */
  predicate KeptNonEmpty(v: Value, recursive: bool) {
    !IsEmptyValue(v) && !(recursive && v.Dict? && RemoveEmptyValues(v, true) == [])
  }

  /** The result holds exactly the keys whose value is kept, in their
      original order. */
  lemma KeysRemoveEmpty(data: Value, recursive: bool)
    requires data.Dict?
    ensures Keys(RemoveEmptyValues(data, recursive)) ==
      KeysWhere(data.entries, (v: Value) => KeptNonEmpty(v, recursive))
  {
    assert data.entries[0..] == data.entries;
    KeysRemoveEmptyFrom(data, 0, recursive);
  }

  lemma {:induction false} KeysRemoveEmptyFrom(d: Value, i: nat, recursive: bool)
    requires d.Dict? && i <= |d.entries|
    ensures Keys(RemoveEmptyFrom(d, i, recursive)) ==
      KeysWhere(d.entries[i..], (v: Value) => KeptNonEmpty(v, recursive))
    decreases |d.entries| - i
  {
    if i < |d.entries| {
      var (k0, w) := d.entries[i];
      var r := RemoveEmptyFrom(d, i, recursive);
      var rest := RemoveEmptyFrom(d, i + 1, recursive);
      KeysRemoveEmptyFrom(d, i + 1, recursive);
      assert d.entries[i..][0] == d.entries[i] && d.entries[i..][1..] == d.entries[i + 1..];
      if KeptNonEmpty(w, recursive) {
        assert r[0].0 == k0 && r[1..] == rest;
      }
    }
  }

  /** Each key of the result holds the original value, or, for a nested dict
      with `recursive` set, that dict cleaned the same way; a key whose value
      is not kept is gone. */
  lemma LookupRemoveEmpty(data: Value, recursive: bool, k: string)
    requires data.Dict? && Wf(data.entries)
    ensures Lookup(RemoveEmptyValues(data, recursive), k) ==
      match Lookup(data.entries, k)
      case None => Option.None
      case Some(v) =>
        if !KeptNonEmpty(v, recursive) then Option.None
        else if recursive && v.Dict? then Some(Dict(RemoveEmptyValues(v, true)))
        else Some(v)
  {
    assert data.entries[0..] == data.entries;
    LookupRemoveEmptyFrom(data, 0, recursive, k);
  }

  lemma {:induction false} LookupRemoveEmptyFrom(d: Value, i: nat, recursive: bool, k: string)
    requires d.Dict? && i <= |d.entries| && Wf(d.entries)
    ensures Lookup(RemoveEmptyFrom(d, i, recursive), k) ==
      match Lookup(d.entries[i..], k)
      case None => Option.None
      case Some(v) =>
        if !KeptNonEmpty(v, recursive) then Option.None
        else if recursive && v.Dict? then Some(Dict(RemoveEmptyValues(v, true)))
        else Some(v)
    decreases |d.entries| - i
  {
    if i < |d.entries| {
      var (k0, w) := d.entries[i];
      var r := RemoveEmptyFrom(d, i, recursive);
      var rest := RemoveEmptyFrom(d, i + 1, recursive);
      LookupRemoveEmptyFrom(d, i + 1, recursive, k);
      LookupFrom(d.entries, i, k);
      if k == k0 {
        WfRest(d.entries, i);
      }
      if KeptNonEmpty(w, recursive) {
        assert r[0].0 == k0 && r[1..] == rest;
      }
    }
  }

  /** No empty value anywhere inside a dict. */
  ghost predicate NoEmptyDeep(d: Value)
    decreases d
  {
    d.Dict? ==> NoEmptyFrom(d, 0)
  }

  ghost predicate NoEmptyFrom(d: Value, i: nat)
    requires d.Dict? && i <= |d.entries|
    decreases d, |d.entries| - i
  {
    i == |d.entries| ||
    (assert d.entries[i] in d.entries;
     !IsEmptyValue(d.entries[i].1) && NoEmptyDeep(d.entries[i].1) && NoEmptyFrom(d, i + 1))
  }

  /** With `recursive` set, no empty value remains at any depth: nested dicts
      that become empty are dropped too. */
  lemma {:induction false} RemoveEmptyDeep(d: Value, i: nat)
    requires d.Dict? && i <= |d.entries|
    ensures NoEmptyFrom(Dict(RemoveEmptyFrom(d, i, true)), 0)
    decreases d, |d.entries| - i
  {
    if i < |d.entries| {
      var (k, v) := d.entries[i];
      assert d.entries[i] in d.entries;
      var rest := RemoveEmptyFrom(d, i + 1, true);
      RemoveEmptyDeep(d, i + 1);
      var r := Dict(RemoveEmptyFrom(d, i, true));
      if !IsEmptyValue(v) {
        if v.Dict? {
          RemoveEmptyDeep(v, 0);
          if RemoveEmptyFrom(v, 0, true) != [] {
            NoEmptyFromTail(r, Dict(rest), 1);
          }
        } else {
          NoEmptyFromTail(r, Dict(rest), 1);
        }
      }
    }
  }

  lemma {:induction false} NoEmptyFromTail(r: Value, t: Value, i: nat)
    requires r.Dict? && t.Dict? && 1 <= i <= |r.entries| && r.entries[1..] == t.entries
    requires NoEmptyFrom(t, i - 1)
    ensures NoEmptyFrom(r, i)
    decreases |r.entries| - i
  {
    if i < |r.entries| {
      assert r.entries[i] == t.entries[i - 1];
      NoEmptyFromTail(r, t, i + 1);
    }
  }

  // =====================================================================
  // Batch processing

  /** `batch_process(items, batch_size, process_func)`: `process_func` applied
      to each chunk in order; the first exception it raises propagates, and an
      invalid `batch_size` raises `ValueError` before any call. */
  method BatchProcess<T, R>(items: seq<T>, batchSize: int, process: seq<T> -> Result<R>)
    returns (r: Result<seq<R>>)
    ensures batchSize <= 0 ==> r == Err(ValueError)
    ensures batchSize > 0 && r.Ok? ==>
      |r.value| == |ChunksOf(items, batchSize)| &&
      forall i :: 0 <= i < |r.value| ==> process(ChunksOf(items, batchSize)[i]) == Ok(r.value[i])
    ensures batchSize > 0 && r.Err? ==>
      exists i :: 0 <= i < |ChunksOf(items, batchSize)| &&
        process(ChunksOf(items, batchSize)[i]) == Err(r.error) &&
        forall j :: 0 <= j < i ==> process(ChunksOf(items, batchSize)[j]).Ok?
  {
    var chunks := ChunkList(items, batchSize);
    if chunks.Err? {
      return Err(chunks.error);
    }
    r := ProcessEach(chunks.value, process);
  }

  /** The loop of `batch_process`: each batch in turn, stopping at the first
      one whose processing raises. */
  method ProcessEach<T, R>(cs: seq<seq<T>>, process: seq<T> -> Result<R>) returns (r: Result<seq<R>>)
    ensures r.Ok? ==> |r.value| == |cs| && forall i :: 0 <= i < |cs| ==> process(cs[i]) == Ok(r.value[i])
    ensures r.Err? ==>
      exists i :: 0 <= i < |cs| && process(cs[i]) == Err(r.error) && forall j :: 0 <= j < i ==> process(cs[j]).Ok?
  {
    var results: seq<R> := [];
    var i := 0;
    while i < |cs|
      invariant 0 <= i <= |cs| && |results| == i
      invariant forall j :: 0 <= j < i ==> process(cs[j]) == Ok(results[j])
    {
      var out := process(cs[i]);
      if out.Err? {
        assert process(cs[i]) == Err(out.error);
        return Err(out.error);
      }
      results := results + [out.value];
      i := i + 1;
    }
    return Ok(results);
  }

  // =====================================================================
  // Email validation

  predicate IsLocalChar(c: char) {
    IsAlnumChar(c) || c in {'.', '_', '%', '+', '-'}
  }

  predicate IsDomainChar(c: char) {
    IsAlnumChar(c) || c in {'.', '-'}
  }

  /** The pattern `[a-zA-Z0-9._%+-]+@[a-zA-Z0-9.-]+\.[a-zA-Z]{2,}` matching all
      of `s`, read as the regular expression reads it: some split of `s` into
      the five parts. */
  ghost predicate EmailShape(s: string) {
    exists at, dot :: ShapeAt(s, at, dot)
  }

  /** The split of `s` with the `@` at `at` and the final dot at `dot`. */
  predicate ShapeAt(s: string, at: int, dot: int) {
    0 < at && at + 1 < dot && dot + 2 < |s| &&
    (forall k :: 0 <= k < at ==> IsLocalChar(s[k])) &&
    s[at] == '@' &&
    (forall k :: at < k < dot ==> IsDomainChar(s[k])) &&
    s[dot] == '.' &&
    (forall k :: dot < k < |s| ==> IsAsciiLetter(s[k]))
  }

  /** `validate_email(email)`: `re.match` of `^pattern$`, where `$` also matches
      before one final newline. */
  ghost predicate EmailPattern(s: string) {
    EmailShape(s) || (s != [] && s[|s| - 1] == '\n' && EmailShape(s[..|s| - 1]))
  }

  /** The index of the last `c` in `s`, or -1. */
  function LastIndexOf(s: string, c: char): (i: int)
    ensures -1 <= i < |s|
    ensures i >= 0 ==> s[i] == c
    ensures forall k :: i < k < |s| ==> s[k] != c
  {
    if s == [] then -1
    else if s[|s| - 1] == c then |s| - 1
    else LastIndexOf(s[..|s| - 1], c)
  }

  /** A scanning decision for `EmailShape`: the `@` is the first one, and the
      final dot is the last one. */
  function IsEmailShape(s: string): (b: bool)
    ensures b <==> EmailShape(s)
  {
    var at := IndexOfChar(s, '@');
    var dot := LastIndexOf(s, '.');
    var b := ShapeAt(s, at, dot);
    assert EmailShape(s) ==> b by {
      if EmailShape(s) {
        var at', dot' :| ShapeAt(s, at', dot');
        ShapeAtUnique(s, at', dot');
      }
    }
    b
  }

  /** A split is unique: its `@` is the first one and its dot the last one. */
  lemma ShapeAtUnique(s: string, at: int, dot: int)
    requires ShapeAt(s, at, dot)
    ensures at == IndexOfChar(s, '@') && dot == LastIndexOf(s, '.')
  {
    assert !IsLocalChar('@');
    assert !IsAsciiLetter('.');
  }

  /** The index of the first `c` in `s`, or -1. */
  function IndexOfChar(s: string, c: char): (i: int)
    ensures -1 <= i < |s|
    ensures i >= 0 ==> s[i] == c
    ensures forall k :: 0 <= k < |s| && (i < 0 || k < i) ==> s[k] != c
  {
    if s == [] then -1
    else if s[0] == c then 0
    else
      var r := IndexOfChar(s[1..], c);
      if r < 0 then -1 else r + 1
  }

  /** `validate_email(email)`. */
  function ValidateEmail(email: string): (b: bool)
    ensures b <==> EmailPattern(email)
  {
    IsEmailShape(email) || (email != [] && email[|email| - 1] == '\n' && IsEmailShape(email[..|email| - 1]))
  }
}
