/** The older toolkit `utils.py`. Its chunking, flattening and unflattening
    are written differently from `utils/common_utils.py`; the lemmas here
    relate the two. Its `merge_dicts` is shallow and variadic, and its
    `filter_dict` takes an allow list or a deny list. */
module LegacyUtils {
  import opened Wrappers
  import opened PyDict
  import opened Text
  import opened Values
  import CommonUtils

  // ---------------------------------------------------------------------
  // chunk_list

  /** `chunk_list(data, chunk_size)`: the slices are collected eagerly in a
      loop; the result is the chunking of `utils/common_utils.py`. */
  method ChunkList<T>(data: seq<T>, chunkSize: int) returns (r: Result<seq<seq<T>>>)
    ensures r == CommonUtils.ChunkList(data, chunkSize)
  {
    if chunkSize <= 0 {
      return Err(ValueError);
    }
    var chunks: seq<seq<T>> := [];
    var i := 0;
    while i < |data|
      invariant 0 <= i <= |data|
      invariant chunks + CommonUtils.ChunksOf(data[i..], chunkSize) == CommonUtils.ChunksOf(data, chunkSize)
      decreases |data| - i
    {
      var end := Min(i + chunkSize, |data|);
      ChunkAdvance(data, chunks, i, chunkSize);
      chunks := chunks + [data[i..end]];
      i := end;
    }
    ChunkDone(data, chunks, chunkSize);
    return Ok(chunks);
  }

  /** The loop's invariant survives one more slice. */
  lemma ChunkAdvance<T>(data: seq<T>, chunks: seq<seq<T>>, i: nat, size: nat)
    requires size > 0 && i < |data|
    requires chunks + CommonUtils.ChunksOf(data[i..], size) == CommonUtils.ChunksOf(data, size)
    ensures (chunks + [data[i..Min(i + size, |data|)]]) + CommonUtils.ChunksOf(data[Min(i + size, |data|)..], size) ==
      CommonUtils.ChunksOf(data, size)
  {
    var end := Min(i + size, |data|);
    ChunkStep(data, i, size);
    AppendAssoc(chunks, [data[i..end]], CommonUtils.ChunksOf(data[end..], size));
  }

  lemma ChunkDone<T>(data: seq<T>, chunks: seq<seq<T>>, size: nat)
    requires size > 0
    requires chunks + CommonUtils.ChunksOf(data[|data|..], size) == CommonUtils.ChunksOf(data, size)
    ensures chunks == CommonUtils.ChunksOf(data, size)
  {
    assert data[|data|..] == [];
    assert chunks + [] == chunks;
  }

  function Min(a: int, b: int): int {
    if a < b then a else b
  }

  /** Taking one slice off the front of the remaining data. */
  lemma ChunkStep<T>(data: seq<T>, i: nat, size: nat)
    requires size > 0 && i < |data|
    ensures CommonUtils.ChunksOf(data[i..], size)
      == [data[i..Min(i + size, |data|)]] + CommonUtils.ChunksOf(data[Min(i + size, |data|)..], size)
  {
    var rest := data[i..];
    if |rest| > size {
      assert rest[..size] == data[i..i + size];
      assert rest[size..] == data[i + size..];
    } else {
      assert Min(i + size, |data|) == |data|;
      assert data[i..|data|] == rest;
      assert data[|data|..] == [];
    }
  }

  // ---------------------------------------------------------------------
  // flatten_dict / unflatten_dict

  /** `flatten_dict(nested, separator, prefix)`: leaves are written into one
      running dict, and a nested dict's flattening is merged in with
      `update`. No value of the result is a dict. */
  function Flatten(v: Value, sep: string, prefix: string): (r: Dict<string, Value>)
    requires v.Dict?
    ensures forall e :: e in r ==> !e.1.Dict?
    decreases v, |v.entries| + 1
  {
    FlattenFrom([], v, 0, sep, prefix)
  }

  function FlattenFrom(acc: Dict<string, Value>, d: Value, i: nat, sep: string, prefix: string): (r: Dict<string, Value>)
    requires d.Dict? && i <= |d.entries|
    requires forall e :: e in acc ==> !e.1.Dict?
    ensures forall e :: e in r ==> !e.1.Dict?
    decreases d, |d.entries| - i
  {
    if i == |d.entries| then acc
    else
      assert d.entries[i] in d.entries;
      var (k, v) := d.entries[i];
      var key := CommonUtils.ChildKey(prefix, k, sep);
      if v.Dict? then
        var sub := Flatten(v, sep, key);
        UpdateEntries(acc, sub, (x: Value) => !x.Dict?);
        FlattenFrom(Update(acc, sub), d, i + 1, sep, prefix)
      else
        SetEntries(acc, key, v, (x: Value) => !x.Dict?);
        FlattenFrom(PyDict.Set(acc, key, v), d, i + 1, sep, prefix)
  }

  /** One key of `unflatten_dict`: missing intermediates become `{}`, and any
      value that is not a dict on the way makes the assignment or lookup
      raise a `TypeError`. */
  function InsertPath(d: Dict<string, Value>, parts: seq<string>, value: Value): (r: Result<Dict<string, Value>>)
    requires parts != []
    ensures r.Err? ==> r.error == TypeError
    decreases |parts|
  {
    if |parts| == 1 then Ok(PyDict.Set(d, parts[0], value))
    else
      var child := if parts[0] in Keys(d) then Lookup(d, parts[0]).value else EmptyDict;
      if !child.Dict? then Err(TypeError)
      else
        var inner :- InsertPath(child.entries, parts[1..], value);
        Ok(PyDict.Set(d, parts[0], Dict(inner)))
  }

  function UnflattenItems(acc: Dict<string, Value>, items: Dict<string, Value>, sep: string): Result<Dict<string, Value>>
    requires sep != []
    decreases |items|
  {
    if items == [] then Ok(acc)
    else
      var next :- InsertPath(acc, Split(items[0].0, sep), items[0].1);
      UnflattenItems(next, items[1..], sep)
  }

  /** `unflatten_dict(flattened, separator)`. */
  function Unflatten(data: Dict<string, Value>, sep: string): (r: Result<Dict<string, Value>>)
    ensures sep == "" ==> (r.Err? <==> data != [])
  {
    if data == [] then Ok([])
    else if sep == "" then Err(ValueError)
    else UnflattenItems([], data, sep)
  }

  /** The two versions of one unflattening step build the same dict and fail
      on the same inputs; only the error raised differs. */
  lemma {:induction false} InsertPathAgrees(d: Dict<string, Value>, parts: seq<string>, value: Value)
    requires parts != []
    ensures InsertPath(d, parts, value).Ok? <==> CommonUtils.InsertPath(d, parts, value).Ok?
    ensures InsertPath(d, parts, value).Ok? ==> InsertPath(d, parts, value) == CommonUtils.InsertPath(d, parts, value)
    decreases |parts|
  {
    if |parts| > 1 {
      var child := Lookup(d, parts[0]).GetOr(EmptyDict);
      if child.Dict? {
        InsertPathAgrees(child.entries, parts[1..], value);
      }
    }
  }

  lemma {:induction false} UnflattenItemsAgree(acc: Dict<string, Value>, items: Dict<string, Value>, sep: string)
    requires sep != []
    ensures UnflattenItems(acc, items, sep).Ok? <==> CommonUtils.UnflattenItems(acc, items, sep).Ok?
    ensures UnflattenItems(acc, items, sep).Ok? ==> UnflattenItems(acc, items, sep) == CommonUtils.UnflattenItems(acc, items, sep)
    decreases |items|
  {
    if items != [] {
      var parts := Split(items[0].0, sep);
      InsertPathAgrees(acc, parts, items[0].1);
      var r := InsertPath(acc, parts, items[0].1);
      if r.Ok? {
        UnflattenItemsAgree(r.value, items[1..], sep);
      }
    }
  }

  /** `unflatten_dict` of `utils.py` agrees with the one of
      `utils/common_utils.py` wherever either succeeds. */
  lemma UnflattenAgrees(data: Dict<string, Value>, sep: string)
    ensures Unflatten(data, sep).Ok? <==> CommonUtils.UnflattenDict(data, sep).Ok?
    ensures Unflatten(data, sep).Ok? ==> Unflatten(data, sep) == CommonUtils.UnflattenDict(data, sep)
  {
    if data != [] && sep != "" {
      UnflattenItemsAgree([], data, sep);
    }
  }

  /** On dicts with distinct keys that the separator's first character does
      not occur in, the running-dict `flatten_dict` of `utils.py` gives the
      items of the one in `utils/common_utils.py`, in the same order. */
  lemma {:induction false} FlattenAgrees(v: Value, sep: string, prefix: string)
    requires v.Dict? && sep != [] && DeepWf(v) && CommonUtils.KeysAvoid(v, sep[0])
    requires prefix == "" ==> forall j :: 0 <= j < |v.entries| && v.entries[j].1.Dict? ==> v.entries[j].0 != ""
    ensures Flatten(v, sep, prefix) == CommonUtils.FlattenDict(v, prefix, sep)
    decreases v, 1
  {
    var ps := CommonUtils.LeafPaths(v, 0);
    FlattenFromKeyed([], v, 0, sep, prefix);
    CommonUtils.FlattenItemsKeyed(v, 0, prefix, sep);
  }

  lemma {:induction false} FlattenFromKeyed(acc: Dict<string, Value>, d: Value, i: nat, sep: string, prefix: string)
    requires d.Dict? && i <= |d.entries| && sep != [] && DeepWf(d) && CommonUtils.KeysAvoid(d, sep[0])
    requires forall e :: e in acc ==> !e.1.Dict?
    requires prefix == "" ==> forall j :: i <= j < |d.entries| && d.entries[j].1.Dict? ==> d.entries[j].0 != ""
    ensures FlattenFrom(acc, d, i, sep, prefix) == Update(acc, CommonUtils.Keyed(prefix, CommonUtils.LeafPaths(d, i), sep))
    decreases d, 0, |d.entries| - i
  {
    if i < |d.entries| {
      var here := CommonUtils.EntryPaths(d, i);
      var rest := CommonUtils.LeafPaths(d, i + 1);
      CommonUtils.UnfoldEntry(d, i, prefix, sep);
      CommonUtils.KeyedAppend(prefix, here, rest, sep);
      var hereItems := CommonUtils.Keyed(prefix, here, sep);
      FromStep(acc, d, i, sep, prefix);
      FlattenFromKeyed(Update(acc, hereItems), d, i + 1, sep, prefix);
      UpdateAppend(acc, hereItems, CommonUtils.Keyed(prefix, rest, sep));
    }
  }

  /** Entry `i` adds its joined leaf paths to the running dict. */
  lemma {:induction false} FromStep(acc: Dict<string, Value>, d: Value, i: nat, sep: string, prefix: string)
    requires d.Dict? && i < |d.entries| && sep != [] && DeepWf(d) && CommonUtils.KeysAvoid(d, sep[0])
    requires forall e :: e in acc ==> !e.1.Dict?
    requires prefix == "" ==> forall j :: i <= j < |d.entries| && d.entries[j].1.Dict? ==> d.entries[j].0 != ""
    ensures forall e :: e in Update(acc, CommonUtils.Keyed(prefix, CommonUtils.EntryPaths(d, i), sep)) ==> !e.1.Dict?
    ensures FlattenFrom(acc, d, i, sep, prefix) ==
      FlattenFrom(Update(acc, CommonUtils.Keyed(prefix, CommonUtils.EntryPaths(d, i), sep)), d, i + 1, sep, prefix)
    decreases d, 0, |d.entries| - i, 0
  {
    assert d.entries[i] in d.entries;
    var (k, v) := d.entries[i];
    var key := CommonUtils.ChildKey(prefix, k, sep);
    var hereItems := CommonUtils.Keyed(prefix, CommonUtils.EntryPaths(d, i), sep);
    if v.Dict? {
      DeepWfFromAll(d, 0, i);
      FlattenAgrees(v, sep, key);
      CommonUtils.EntryKeyed(d, i, prefix, sep);
      UpdateEntries(acc, hereItems, (x: Value) => !x.Dict?);
    } else {
      assert CommonUtils.KeyOf(prefix, [k], sep) == key;
      assert hereItems == [(key, v)];
      assert Update(acc, hereItems) == PyDict.Set(acc, key, v);
      SetEntries(acc, key, v, (x: Value) => !x.Dict?);
    }
  }

  /** Updating with two dicts in turn is updating with their items in turn. */
  lemma {:induction false} UpdateAppend(d: Dict<string, Value>, e: Dict<string, Value>, f: Dict<string, Value>)
    ensures Update(d, e + f) == Update(Update(d, e), f)
    decreases |e|
  {
    if e == [] {
      assert e + f == f;
    } else {
      assert (e + f)[1..] == e[1..] + f;
      UpdateAppend(PyDict.Set(d, e[0].0, e[0].1), e[1..], f);
    }
  }

  /** The `unflatten_dict(flatten_dict(d))` round trip holds for `utils.py`
      under the conditions that make it hold in `utils/common_utils.py`. */
  lemma FlattenRoundTrip(d: Dict<string, Value>, sep: string)
    requires sep != [] && DeepWf(Dict(d)) && CommonUtils.KeysAvoid(Dict(d), sep[0]) && CommonUtils.NoEmptyNested(Dict(d))
    requires forall j :: 0 <= j < |d| && d[j].1.Dict? ==> d[j].0 != ""
    ensures Unflatten(Flatten(Dict(d), sep, ""), sep) == Ok(d)
  {
    FlattenAgrees(Dict(d), sep, "");
    CommonUtils.FlattenRoundTrip(d, sep);
    UnflattenAgrees(CommonUtils.FlattenDict(Dict(d), "", sep), sep);
  }

  // ---------------------------------------------------------------------
  // merge_dicts / filter_dict

  /** The shallow merge of the dict arguments, later ones overriding. */
  function MergeAll(ds: seq<Value>): Dict<string, Value>
    decreases |ds|
  {
    if ds == [] then []
    else
      var m := MergeAll(ds[..|ds| - 1]);
      var last := ds[|ds| - 1];
      if last.Dict? then Update(m, last.entries) else m
  }

  /** The value of `k` in the last dict argument that holds it. */
  function LastHolding(ds: seq<Value>, k: string): Option<Value>
    decreases |ds|
  {
    if ds == [] then Option.None
    else
      var last := ds[|ds| - 1];
      if last.Dict? && k in Keys(last.entries) then Lookup(last.entries, k)
      else LastHolding(ds[..|ds| - 1], k)
  }

  /** `merge_dicts(*dicts)`: `merged.update(d)` for every argument that is a
      dict; the others are skipped. */
  method MergeDicts(ds: seq<Value>) returns (merged: Dict<string, Value>)
    ensures merged == MergeAll(ds)
  {
    merged := [];
    var i := 0;
    while i < |ds|
      invariant 0 <= i <= |ds|
      invariant merged == MergeAll(ds[..i])
    {
      assert ds[..i + 1][..i] == ds[..i];
      if ds[i].Dict? {
        merged := Update(merged, ds[i].entries);
      }
      i := i + 1;
    }
    assert ds[..|ds|] == ds;
  }

  /** Each key of the merge takes its value from the last dict argument that
      holds it, and a key no argument holds is absent. */
  lemma {:induction false} LookupMergeAll(ds: seq<Value>, k: string)
    requires forall j :: 0 <= j < |ds| && ds[j].Dict? ==> Wf(ds[j].entries)
    ensures Lookup(MergeAll(ds), k) == LastHolding(ds, k)
    decreases |ds|
  {
    if ds != [] {
      var last := ds[|ds| - 1];
      LookupMergeAll(ds[..|ds| - 1], k);
      if last.Dict? {
        LookupUpdate(MergeAll(ds[..|ds| - 1]), last.entries, k);
      }
    }
  }

  /** `{k: v for k, v in data.items() if k not in excluded}`. */
  function Exclude(data: Dict<string, Value>, excluded: seq<string>): (r: Dict<string, Value>)
    ensures forall e :: e in r <==> e in data && e.0 !in excluded
  {
    if data == [] then []
    else if data[0].0 !in excluded then [data[0]] + Exclude(data[1..], excluded)
    else Exclude(data[1..], excluded)
  }

  /** `filter_dict(data, allowed_keys, excluded_keys)`: an allow list wins
      over a deny list; with neither the result is a copy. */
  function FilterDict(data: Dict<string, Value>, allowed: Option<seq<string>>, excluded: Option<seq<string>>): (r: Dict<string, Value>)
  {
    if allowed.Some? then CommonUtils.FilterDict(data, allowed.value)
    else if excluded.Some? then Exclude(data, excluded.value)
    else data
  }

  /** What `filter_dict` keeps, key by key. */
  lemma {:induction false} LookupFilter(data: Dict<string, Value>, allowed: Option<seq<string>>, excluded: Option<seq<string>>, k: string)
    ensures Lookup(FilterDict(data, allowed, excluded), k) ==
      if allowed.Some? then (if k in allowed.value then Lookup(data, k) else Option.None)
      else if excluded.Some? then (if k in excluded.value then Option.None else Lookup(data, k))
      else Lookup(data, k)
  {
    if allowed.Some? {
      CommonUtils.LookupFilter(data, allowed.value, k);
    } else if excluded.Some? {
      LookupExclude(data, excluded.value, k);
    }
  }

  lemma {:induction false} LookupExclude(data: Dict<string, Value>, excluded: seq<string>, k: string)
    ensures Lookup(Exclude(data, excluded), k) == if k in excluded then Option.None else Lookup(data, k)
  {
    if data != [] {
      LookupExclude(data[1..], excluded, k);
    }
  }
}
