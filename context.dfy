/** The named key-value context store: a `Context` holds an ordered mapping
    from string keys to values, a `ContextManager` holds the named contexts,
    and `Runtime` holds the two module-level singletons (the lazily created
    manager and the lazily created standalone global context) together with
    the free functions that use them. The per-object locks only serialise
    calls; the model is sequential, so they are not represented. */
module ContextStore {
  import opened Wrappers
  import opened PyDict

  class Context<V> {
    const name: string
    var data: WfDict<string, V>

    /** `Context(name)`: a fresh, empty context. */
    constructor (name: string)
      ensures this.name == name && data == []
    {
      this.name := name;
      data := [];
    }

    /** `Context()`: a fresh, empty context under the default name. */
    constructor Unnamed()
      ensures name == "default" && data == []
    {
      name := "default";
      data := [];
    }

    /** `ctx.set(key, value)`: `key` now holds `value`; a new key goes last. */
    method Set(key: string, value: V)
      modifies this
      ensures ToMap(data) == old(ToMap(data))[key := value]
      ensures Keys(data) == if key in old(Keys(data)) then old(Keys(data)) else old(Keys(data)) + [key]
    {
      WfSet(data, key, value);
      ToMapSet(data, key, value);
      KeysSet(data, key, value);
      data := PyDict.Set(data, key, value);
    }

    /** `ctx.get(key, default)`. */
    function Get(key: string, default: V): (v: V)
      reads this
      ensures key in ToMap(data) ==> v == ToMap(data)[key]
      ensures key !in ToMap(data) ==> v == default
    {
      PyDict.Get(data, key, default)
    }

    /** `ctx.delete(key)`: reports whether the key was there and removes it. */
    method Delete(key: string) returns (deleted: bool)
      modifies this
      ensures deleted <==> key in old(ToMap(data))
      ensures ToMap(data) == old(ToMap(data)) - {key}
      ensures Keys(data) == Without(old(Keys(data)), key)
      ensures !deleted ==> data == old(data)
    {
      if key in Keys(data) {
        WfRemove(data, key);
        ToMapRemove(data, key);
        KeysRemove(data, key);
        data := Remove(data, key);
        deleted := true;
      } else {
        WithoutAbsent(Keys(data), key);
        deleted := false;
      }
    }

    /** `ctx.has(key)`. */
    predicate Has(key: string)
      reads this
      ensures Has(key) <==> key in ToMap(data)
    {
      key in Keys(data)
    }

    /** `ctx.clear()`. */
    method Clear()
      modifies this
      ensures data == []
    {
      data := [];
    }

    /** `ctx.keys()`: every stored key once, in insertion order. */
    function KeyList(): (ks: seq<string>)
      reads this
      ensures |ks| == |data|
      ensures forall i :: 0 <= i < |ks| ==> ks[i] == data[i].0
      ensures forall k :: k in ks <==> k in ToMap(data)
      ensures NoDuplicates(ks)
    {
      WfKeys(data);
      Keys(data)
    }

    /** `ctx.values()`: the values, in the order of `KeyList`. */
    function ValueList(): (vs: seq<V>)
      reads this
      ensures |vs| == |data|
      ensures forall i :: 0 <= i < |vs| ==> vs[i] == ToMap(data)[data[i].0]
    {
      forall i | 0 <= i < |data| ensures Lookup(data, data[i].0) == Some(data[i].1) {
        LookupInWf(data, i);
      }
      Values(data)
    }

    /** `ctx.items()`: the pairs, in the order of `KeyList`. */
    function ItemList(): (items: seq<(string, V)>)
      reads this
      ensures |items| == |data|
      ensures forall i :: 0 <= i < |items| ==> items[i].0 in ToMap(data) && items[i].1 == ToMap(data)[items[i].0]
      ensures forall i :: 0 <= i < |items| ==> items[i] == (KeyList()[i], ValueList()[i])
    {
      forall i | 0 <= i < |data| ensures Lookup(data, data[i].0) == Some(data[i].1) {
        LookupInWf(data, i);
      }
      data
    }

    /** `ctx.update(other)`: the keys of `other` take its values; the others keep theirs. */
    method Update(other: WfDict<string, V>)
      modifies this
      ensures ToMap(data) == old(ToMap(data)) + ToMap(other)
      ensures Keys(data) == old(Keys(data)) + NewKeys(old(data), other)
    {
      WfUpdate(data, other);
      ToMapUpdate(data, other);
      KeysUpdate(data, other);
      data := PyDict.Update(data, other);
    }

    /** `ctx.to_dict()`: a copy; later changes to the context do not reach it. */
    function ToDict(): (d: WfDict<string, V>)
      reads this
      ensures ToMap(d) == ToMap(data) && Keys(d) == Keys(data)
    {
      data
    }

    /** `len(ctx)`. */
    function Length(): (n: nat)
      reads this
      ensures n == |ToMap(data)|
    {
      KeysCard(data);
      |data|
    }
  }

  /** The number of keys of a well-formed dict is its number of items. */
  lemma KeysCard<V>(d: WfDict<string, V>)
    ensures |ToMap(d)| == |d|
  {
    WfKeys(d);
    DistinctCard(Keys(d));
    assert ToMap(d).Keys == set k | k in Keys(d);
  }

  /** A sequence without duplicates has as many distinct elements as entries. */
  lemma {:induction false} DistinctCard<K>(s: seq<K>)
    requires NoDuplicates(s)
    ensures |set x | x in s| == |s|
  {
    if s != [] {
      DistinctCard(s[1..]);
      assert (set x | x in s) == {s[0]} + (set x | x in s[1..]);
      assert s[0] !in s[1..] by {
        forall i | 0 <= i < |s[1..]| ensures s[1..][i] != s[0] {
          assert s[1..][i] == s[i + 1];
        }
      }
    }
  }

  /** Holds the named contexts; each is registered under its own name. */
  class ContextManager<V> {
    var contexts: WfDict<string, Context<V>>

    ghost predicate Valid()
      reads this
    {
      forall i :: 0 <= i < |contexts| ==> contexts[i].1.name == contexts[i].0
    }

    /** The registered context objects. */
    ghost function Objects(): set<object>
      reads this
    {
      ObjectsOf(contexts)
    }

    /** A registered context is one of the registered objects. */
    lemma InObjects(name: string)
      requires name in ToMap(contexts)
      ensures ToMap(contexts)[name] in Objects()
    {
      var c := ToMap(contexts)[name];
      assert (name, c) in contexts;
      var i :| 0 <= i < |contexts| && contexts[i] == (name, c);
      assert contexts[i].1 in ObjectsOf(contexts);
    }

    constructor ()
      ensures Valid() && contexts == []
    {
      contexts := [];
    }

    /** `create_context(name)`: a `ValueError` when the name is taken, otherwise a
        fresh empty context registered last. */
    method CreateContext(name: string) returns (r: Result<Context<V>>)
      requires Valid()
      modifies this
      ensures Valid()
      ensures old(name in Keys(contexts)) ==> r == Err(ValueError) && contexts == old(contexts)
      ensures old(name !in Keys(contexts)) ==>
        r.Ok? && fresh(r.value) && r.value.name == name && r.value.data == [] &&
        contexts == old(contexts) + [(name, r.value)]
      ensures Objects() == if r.Ok? then old(Objects()) + {r.value} else old(Objects())
    {
      if name in Keys(contexts) {
        return Err(ValueError);
      }
      var ctx := new Context(name);
      AddNew(name, ctx);
      r := Ok(ctx);
    }

    /** Registers a context under a name that is not yet taken. */
    method AddNew(name: string, ctx: Context<V>)
      requires Valid() && name !in Keys(contexts) && ctx.name == name
      modifies this
      ensures Valid() && contexts == old(contexts) + [(name, ctx)]
      ensures name in ToMap(contexts) && ToMap(contexts)[name] == ctx
      ensures Objects() == old(Objects()) + {ctx}
    {
      ObjectsAppend(contexts, name, ctx);
      WfSet(contexts, name, ctx);
      SetAbsent(contexts, name, ctx);
      ToMapSet(contexts, name, ctx);
      AppendKeepsNames(contexts, name, ctx);
      contexts := PyDict.Set(contexts, name, ctx);
    }

    /** `get_context(name)`: the context registered under `name`, if any. */
    function GetContext(name: string): (r: Option<Context<V>>)
      requires Valid()
      reads this
      ensures r.Some? <==> name in ToMap(contexts)
      ensures r.Some? ==> r.value == ToMap(contexts)[name] && r.value.name == name
    {
      var r := Lookup(contexts, name);
      if r.Some? then
        assert exists i :: 0 <= i < |contexts| && contexts[i] == (name, r.value);
        r
      else r
    }

    /** `get_or_create_context(name)`: the registered context, or a fresh empty
        one registered last. The same name always yields the same object. */
    method GetOrCreateContext(name: string) returns (ctx: Context<V>)
      requires Valid()
      modifies this
      ensures Valid() && ctx.name == name
      ensures name in ToMap(contexts) && ToMap(contexts)[name] == ctx
      ensures old(name in ToMap(contexts)) ==> ctx == old(ToMap(contexts))[name] && contexts == old(contexts)
      ensures old(name !in ToMap(contexts)) ==>
        fresh(ctx) && ctx.data == [] && contexts == old(contexts) + [(name, ctx)]
      ensures Objects() == old(Objects()) + {ctx}
    {
      var found := GetContext(name);
      if found.Some? {
        InObjects(name);
        return found.value;
      }
      ctx := new Context(name);
      AddNew(name, ctx);
    }

    /** `delete_context(name)`: reports whether it was registered and unregisters it. */
    method DeleteContext(name: string) returns (deleted: bool)
      requires Valid()
      modifies this
      ensures Valid()
      ensures deleted <==> name in old(ToMap(contexts))
      ensures contexts == Remove(old(contexts), name)
      ensures ToMap(contexts) == old(ToMap(contexts)) - {name}
      ensures Objects() <= old(Objects())
    {
      deleted := name in Keys(contexts);
      ObjectsRemove(contexts, name);
      WfRemove(contexts, name);
      ToMapRemove(contexts, name);
      RemoveKeepsNames(contexts, name);
      if !deleted {
        RemoveAbsent(contexts, name);
      }
      contexts := Remove(contexts, name);
    }

    /** `clear_all()`. */
    method ClearAll()
      modifies this
      ensures Valid() && contexts == []
    {
      contexts := [];
    }

    /** `list_contexts()`: each registered name once, in creation order. */
    function ListContexts(): (names: seq<string>)
      reads this
      ensures forall n :: n in names <==> n in ToMap(contexts)
      ensures NoDuplicates(names)
      ensures |names| == |contexts|
      ensures forall i :: 0 <= i < |names| ==> names[i] == contexts[i].0
    {
      WfKeys(contexts);
      Keys(contexts)
    }
  }

  /** The context objects a registry holds. */
  ghost function ObjectsOf<V>(d: Dict<string, Context<V>>): set<object> {
    set i | 0 <= i < |d| :: d[i].1
  }

  lemma ObjectsAppend<V>(d: Dict<string, Context<V>>, k: string, c: Context<V>)
    ensures ObjectsOf(d + [(k, c)]) == ObjectsOf(d) + {c}
  {
    var e := d + [(k, c)];
    assert e[|d|].1 == c;
    forall o | o in ObjectsOf(e) ensures o in ObjectsOf(d) + {c} {
      var i :| 0 <= i < |e| && e[i].1 == o;
      if i < |d| {
        assert e[i] == d[i];
      }
    }
    forall o | o in ObjectsOf(d) ensures o in ObjectsOf(e) {
      var i :| 0 <= i < |d| && d[i].1 == o;
      assert e[i] == d[i];
    }
  }

  /** Unregistering a name drops objects and adds none. */
  lemma ObjectsRemove<V>(d: Dict<string, Context<V>>, k: string)
    ensures ObjectsOf(Remove(d, k)) <= ObjectsOf(d)
  {
    var r := Remove(d, k);
    forall o | o in ObjectsOf(r) ensures o in ObjectsOf(d) {
      var i :| 0 <= i < |r| && r[i].1 == o;
      RemoveSubset(d, k);
      assert r[i] in r;
      var j :| 0 <= j < |d| && d[j] == r[i];
    }
  }

  lemma {:induction false} RemoveAbsent<K, V>(d: Dict<K, V>, k: K)
    requires k !in Keys(d)
    ensures Remove(d, k) == d
  {
    if d != [] {
      RemoveAbsent(d[1..], k);
      assert d == [d[0]] + d[1..];
    }
  }

  /** Registering a context under its own name keeps every entry registered
      under its own name. */
  lemma AppendKeepsNames<V>(d: Dict<string, Context<V>>, k: string, c: Context<V>)
    requires forall i :: 0 <= i < |d| ==> d[i].1.name == d[i].0
    requires c.name == k
    ensures forall i :: 0 <= i < |d + [(k, c)]| ==> (d + [(k, c)])[i].1.name == (d + [(k, c)])[i].0
  {
  }

  /** Removing an entry keeps every remaining entry registered under its own name. */
  lemma {:induction false} RemoveKeepsNames<V>(d: Dict<string, Context<V>>, k: string)
    requires forall i :: 0 <= i < |d| ==> d[i].1.name == d[i].0
    ensures forall i :: 0 <= i < |Remove(d, k)| ==> Remove(d, k)[i].1.name == Remove(d, k)[i].0
  {
    if d != [] {
      assert forall i :: 0 <= i < |d[1..]| ==> d[1..][i] == d[i + 1];
      RemoveKeepsNames(d[1..], k);
    }
  }

  /** The module-level state: the lazily created manager behind `get_context`
      and the lazily created standalone context behind `get_global_context`. */
  class Runtime<V> {
    var globalContext: Context?<V>
    var manager: ContextManager?<V>

    ghost predicate Valid()
      reads this, manager
    {
      (manager != null ==> manager.Valid()) &&
      (globalContext != null ==> globalContext.name == "global") &&
      (manager != null && globalContext != null ==> globalContext !in manager.Objects())
    }

    /** Import time: neither singleton exists yet. */
    constructor ()
      ensures Valid() && globalContext == null && manager == null
    {
      globalContext := null;
      manager := null;
    }

    /** The contexts registered with the manager (none before it exists). */
    ghost function Registered(): Dict<string, Context<V>>
      reads this, manager
    {
      if manager == null then [] else manager.contexts
    }

    /** The objects a scope may write: the manager's registered contexts. */
    ghost function ScopeFrame(): set<object>
      reads this, manager
    {
      if manager == null then {} else manager.Objects()
    }

    /** The one object a scope for `name` may write: the context registered
        under `name`, if any. */
    ghost function ScopeTarget(name: string): set<object>
      reads this, manager
    {
      if manager != null && name in ToMap(manager.contexts) then {ToMap(manager.contexts)[name]} else {}
    }

    /** What the context registered under `name` holds (nothing when there is none). */
    ghost function ScopeData(name: string): map<string, V>
      reads this, manager, ScopeFrame()
    {
      if manager != null && name in ToMap(manager.contexts) then
        manager.InObjects(name);
        ToMap(ToMap(manager.contexts)[name].data)
      else map[]
    }

    /** Module-level `get_context(name)`: creates the manager on first use and
        returns its context for `name`, creating and registering it if needed. */
    method GetContext(name: string) returns (ctx: Context<V>)
      requires Valid()
      modifies this, manager
      ensures Valid() && manager != null && ctx.name == name
      ensures globalContext == old(globalContext)
      ensures old(manager) != null ==> manager == old(manager)
      ensures old(manager) == null ==> fresh(manager)
      ensures name in ToMap(Registered()) && ToMap(Registered())[name] == ctx
      ensures old(name in ToMap(Registered())) ==>
        ctx == old(ToMap(Registered()))[name] && Registered() == old(Registered())
      ensures old(name !in ToMap(Registered())) ==>
        fresh(ctx) && ctx.data == [] && Registered() == old(Registered()) + [(name, ctx)]
      ensures globalContext != null ==> ctx != globalContext
    {
      if manager == null {
        manager := new ContextManager();
      }
      ctx := manager.GetOrCreateContext(name);
    }

    /** `get_global_context()`: creates the standalone "global" context on
        first use. It is never registered with the manager. */
    method GetGlobalContext() returns (ctx: Context<V>)
      requires Valid()
      modifies this
      ensures Valid() && ctx == globalContext && ctx.name == "global"
      ensures manager == old(manager)
      ensures manager != null ==> ctx !in manager.Objects()
      ensures old(globalContext) != null ==> ctx == old(globalContext)
      ensures old(globalContext) == null ==> fresh(ctx) && ctx.data == []
    {
      if globalContext == null {
        globalContext := new Context("global");
      }
      ctx := globalContext;
    }

    /** `get_global_context()` and `get_context(name)` never hand out the same
        object, not even for the name "global": the standalone context is
        never registered. */
    method GlobalApart(name: string) returns (g: Context<V>, c: Context<V>)
      requires Valid()
      modifies this, manager
      ensures Valid() && g == globalContext && g.name == "global" && c.name == name && g != c
    {
      g := GetGlobalContext();
      c := GetContext(name);
    }

    /** `set_global(key, value)`. */
    method SetGlobal(key: string, value: V)
      requires Valid()
      modifies this, globalContext
      ensures Valid() && globalContext != null && manager == old(manager)
      ensures old(globalContext) != null ==> globalContext == old(globalContext)
      ensures ToMap(globalContext.data) ==
        (if old(globalContext) == null then map[] else old(ToMap(globalContext.data)))[key := value]
      ensures Registered() == old(Registered()) && unchanged(ScopeFrame())
    {
      var ctx := GetGlobalContext();
      ctx.Set(key, value);
    }

    /** `get_global(key, default)`. */
    method GetGlobal(key: string, default: V) returns (v: V)
      requires Valid()
      modifies this
      ensures Valid() && globalContext != null && manager == old(manager)
      ensures old(globalContext) != null ==> globalContext == old(globalContext)
      ensures key in ToMap(globalContext.data) ==> v == ToMap(globalContext.data)[key]
      ensures key !in ToMap(globalContext.data) ==> v == default
    {
      var ctx := GetGlobalContext();
      v := ctx.Get(key, default);
    }

    /** `clear_global()`. */
    method ClearGlobal()
      requires Valid()
      modifies this, globalContext
      ensures Valid() && globalContext != null && globalContext.data == [] && manager == old(manager)
      ensures Registered() == old(Registered()) && unchanged(ScopeFrame())
      ensures old(globalContext) != null ==> globalContext == old(globalContext)
    {
      var ctx := GetGlobalContext();
      ctx.Clear();
    }

    /** Entering `context_scope(name, initial_data)`: the context for `name`
        (an existing one is reused), with a non-empty `initial_data` merged in. */
    method EnterScope(name: string, initial: Option<WfDict<string, V>>) returns (ctx: Context<V>)
      requires Valid()
      modifies this, manager, ScopeTarget(name)
      ensures Valid() && manager != null && ctx.name == name
      ensures globalContext == old(globalContext)
      ensures old(manager) != null ==> manager == old(manager)
      ensures old(manager) == null ==> fresh(manager)
      ensures ctx in old(ScopeTarget(name)) || fresh(ctx)
      ensures name in ToMap(Registered()) && ToMap(Registered())[name] == ctx
      ensures Registered() == old(Registered()) || Registered() == old(Registered()) + [(name, ctx)]
      ensures ToMap(ctx.data) == old(ScopeData(name)) + Initial(initial)
      ensures globalContext != null ==> ctx != globalContext
    {
      ghost var before := ScopeData(name);
      ghost var had := name in ToMap(Registered());
      if had {
        manager.InObjects(name);
      }
      ctx := GetContext(name);
      ghost var registered := Registered();
      if had {
        assert ToMap(ctx.data) == before;
      } else {
        assert ctx.data == [] && before == map[];
        assert ToMap(ctx.data) == before;
      }
      if initial.Some? && initial.value != [] {
        ctx.Update(initial.value);
        assert Registered() == registered;
        assert ToMap(ctx.data) == before + Initial(initial);
      } else {
        assert Initial(initial) == map[];
        MergeEmpty(before);
      }
    }

    /** Leaving `context_scope(name)`, normally or by an exception: the context
        for `name` is unregistered. */
    method ExitScope(name: string)
      requires Valid()
      modifies manager
      ensures Valid() && manager == old(manager)
      ensures Registered() == Remove(old(Registered()), name)
      ensures name !in ToMap(Registered())
    {
      if manager != null {
        var _ := manager.DeleteContext(name);
      } else {
        assert Registered() == [];
      }
    }

    /** A whole `with context_scope(name, initial_data) as ctx:` block whose body
        stores `writes` in the context and then either finishes or raises
        `failure`. Returns the context's contents as the body left them, or the
        body's exception. Either way the name is unregistered afterwards, and
        the other registered contexts stay as they were. */
    method ContextScope(name: string, initial: Option<WfDict<string, V>>,
                        writes: WfDict<string, V>, failure: Option<ErrorKind>)
      returns (r: Result<WfDict<string, V>>)
      requires Valid()
      modifies this, manager, ScopeTarget(name)
      ensures Valid() && manager != null
      ensures globalContext == old(globalContext)
      ensures name !in ToMap(Registered())
      ensures Registered() == Remove(old(Registered()), name)
      ensures failure.Some? ==> r == Err(failure.value)
      ensures failure.None? ==> r.Ok? && ToMap(r.value) == old(ScopeData(name)) + Initial(initial) + ToMap(writes)
    {
      var ctx := EnterScope(name, initial);
      ghost var registered := Registered();
      assert registered == old(Registered()) || registered == old(Registered()) + [(name, ctx)];
      ctx.Update(writes);
      var seen := ctx.ToDict();
      ExitScope(name);
      assert Remove(registered, name) == Remove(old(Registered()), name) by {
        if registered != old(Registered()) {
          RemoveAppended(old(Registered()), name, ctx);
        }
      }
      if failure.Some? {
        r := Err(failure.value);
      } else {
        r := Ok(seen);
      }
    }
  }

  /** The mapping `context_scope` merges in: `initial_data`, when given. */
  function Initial<V>(initial: Option<WfDict<string, V>>): (m: map<string, V>)
    ensures initial.None? ==> m == map[]
    ensures initial.Some? ==> m.Keys == set k | k in Keys(initial.value)
  {
    if initial.Some? then ToMap(initial.value) else map[]
  }

  lemma MergeEmpty<K, V>(m: map<K, V>)
    ensures m + map[] == m
  {
  }

  /** Registering `name` and then removing it gives back the earlier registry. */
  lemma {:induction false} RemoveAppended<K, V>(d: Dict<K, V>, k: K, v: V)
    ensures Remove(d + [(k, v)], k) == Remove(d, k)
  {
    if d == [] {
      assert [(k, v)][1..] == [];
    } else {
      assert (d + [(k, v)])[1..] == d[1..] + [(k, v)];
      RemoveAppended(d[1..], k, v);
    }
  }
}
