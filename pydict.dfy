/** A Python `dict`: a finite mapping that also remembers the order in which
    its keys were first inserted, as `keys()`, `values()` and `items()`
    report it. It is modelled as the sequence of its `(key, value)` items;
    a well-formed dict (`Wf`) holds every key once. */
module PyDict {
  import opened Wrappers
  import Text

  type Dict<K, V> = seq<(K, V)>

  /** `list(d.keys())`. */
  function Keys<K(==), V>(d: Dict<K, V>): (ks: seq<K>)
    ensures |ks| == |d|
    ensures forall i :: 0 <= i < |d| ==> ks[i] == d[i].0
  {
    if d == [] then [] else [d[0].0] + Keys(d[1..])
  }

  /** `list(d.values())`. */
  function Values<K(==), V>(d: Dict<K, V>): (vs: seq<V>)
    ensures |vs| == |d|
    ensures forall i :: 0 <= i < |d| ==> vs[i] == d[i].1
  {
    if d == [] then [] else [d[0].1] + Values(d[1..])
  }

  /** Every key occurs once. */
  ghost predicate Wf<K, V>(d: Dict<K, V>) {
    forall i, j :: 0 <= i < j < |d| ==> d[i].0 != d[j].0
  }

  /** A well-formed dict: every key once. */
  type WfDict<K(==), V> = d: Dict<K, V> | Wf(d) witness []

  /** `d.get(k)`: the value stored under `k`, if any. */
  function Lookup<K(==), V>(d: Dict<K, V>, k: K): (r: Option<V>)
    ensures r.Some? <==> k in Keys(d)
    ensures r.Some? ==> (k, r.value) in d
  {
    if d == [] then None
    else if d[0].0 == k then Some(d[0].1)
    else Lookup(d[1..], k)
  }

  /** `d.get(k, default)`. */
  function Get<K(==), V>(d: Dict<K, V>, k: K, default: V): V {
    Lookup(d, k).GetOr(default)
  }

  /** `d[k] = v`: an existing key keeps its position, a new key goes last. */
  function Set<K(==), V>(d: Dict<K, V>, k: K, v: V): Dict<K, V> {
    if d == [] then [(k, v)]
    else if d[0].0 == k then [(k, v)] + d[1..]
    else [d[0]] + Set(d[1..], k, v)
  }

  /** `del d[k]` (when present); the dict is unchanged when `k` is absent. */
  function Remove<K(==), V>(d: Dict<K, V>, k: K): Dict<K, V> {
    if d == [] then []
    else if d[0].0 == k then Remove(d[1..], k)
    else [d[0]] + Remove(d[1..], k)
  }

  /** `d.update(e)`: the items of `e` are stored one after another. */
  function Update<K(==), V>(d: Dict<K, V>, e: Dict<K, V>): Dict<K, V>
    decreases |e|
  {
    if e == [] then d else Update(Set(d, e[0].0, e[0].1), e[1..])
  }

  /** `dict(items)`: later items win, a key keeps its first position. */
  function FromPairs<K(==), V>(items: seq<(K, V)>): Dict<K, V> {
    Update([], items)
  }

  /** The keys of `e` that `d` lacks, in the order `e` first lists them. */
  function NewKeys<K(==), V>(d: Dict<K, V>, e: Dict<K, V>): seq<K>
    decreases |e|
  {
    if e == [] then []
    else if e[0].0 in Keys(d) then NewKeys(d, e[1..])
    else [e[0].0] + NewKeys(Set(d, e[0].0, e[0].1), e[1..])
  }

  /** The mapping a dict denotes, forgetting the order. */
  function ToMap<K(==), V>(d: Dict<K, V>): map<K, V> {
    map k | k in Keys(d) :: Lookup(d, k).value
  }

  /** A sequence with every occurrence of `x` removed. */
  function Without<K(==)>(s: seq<K>, x: K): (r: seq<K>)
    ensures |r| <= |s|
    ensures x !in r
  {
    if s == [] then []
    else if s[0] == x then Without(s[1..], x)
    else [s[0]] + Without(s[1..], x)
  }

  lemma {:induction false} WithoutMember<K>(s: seq<K>, x: K, y: K)
    ensures y in Without(s, x) <==> y in s && y != x
  {
    if s != [] {
      WithoutMember(s[1..], x, y);
    }
  }

  ghost predicate NoDuplicates<K>(s: seq<K>) {
    forall i, j :: 0 <= i < j < |s| ==> s[i] != s[j]
  }

  // ---------------------------------------------------------------------
  // Lemmas

  lemma WfKeys<K, V>(d: Dict<K, V>)
    ensures Wf(d) <==> NoDuplicates(Keys(d))
  {
  }

  lemma {:induction false} KeysTail<K, V>(d: Dict<K, V>)
    requires d != []
    ensures Keys(d) == [d[0].0] + Keys(d[1..])
  {
  }

  /** After `d[k] = v`, `k` holds `v` and every other key is unchanged. */
  lemma {:induction false} LookupSet<K, V>(d: Dict<K, V>, k: K, v: V, j: K)
    ensures Lookup(Set(d, k, v), j) == if j == k then Some(v) else Lookup(d, j)
  {
    if d != [] && d[0].0 != k {
      LookupSet(d[1..], k, v, j);
    }
  }

  /** `d[k] = v` keeps the key order and appends a new key. */
  lemma {:induction false} KeysSet<K, V>(d: Dict<K, V>, k: K, v: V)
    ensures Keys(Set(d, k, v)) == if k in Keys(d) then Keys(d) else Keys(d) + [k]
  {
    if d != [] && d[0].0 != k {
      KeysSet(d[1..], k, v);
      assert Keys(d) == [d[0].0] + Keys(d[1..]);
    }
  }

  lemma {:induction false} SetLength<K, V>(d: Dict<K, V>, k: K, v: V)
    ensures |Set(d, k, v)| == if k in Keys(d) then |d| else |d| + 1
  {
    KeysSet(d, k, v);
  }

  lemma {:induction false} WfSet<K, V>(d: Dict<K, V>, k: K, v: V)
    requires Wf(d)
    ensures Wf(Set(d, k, v))
  {
    KeysSet(d, k, v);
    WfKeys(d);
    WfKeys(Set(d, k, v));
  }

  /** After `del d[k]`, `k` is absent and every other key is unchanged. */
  lemma {:induction false} LookupRemove<K, V>(d: Dict<K, V>, k: K, j: K)
    ensures Lookup(Remove(d, k), j) == if j == k then None else Lookup(d, j)
  {
    if d != [] {
      LookupRemove(d[1..], k, j);
    }
  }

  /** Removing a key keeps only items that were there. */
  lemma {:induction false} RemoveSubset<K, V>(d: Dict<K, V>, k: K)
    ensures forall e :: e in Remove(d, k) ==> e in d
  {
    if d != [] {
      RemoveSubset(d[1..], k);
      assert forall e :: e in d[1..] ==> e in d;
    }
  }

  lemma {:induction false} KeysRemove<K, V>(d: Dict<K, V>, k: K)
    ensures Keys(Remove(d, k)) == Without(Keys(d), k)
  {
    if d != [] {
      KeysRemove(d[1..], k);
      KeysTail(d);
    }
  }

  lemma {:induction false} WithoutNoDuplicates<K>(s: seq<K>, x: K)
    requires NoDuplicates(s)
    ensures NoDuplicates(Without(s, x))
    ensures |Without(s, x)| == if x in s then |s| - 1 else |s|
  {
    if s != [] {
      WithoutNoDuplicates(s[1..], x);
      if s[0] != x {
        var r := Without(s[1..], x);
        assert s[0] !in s[1..] by {
          forall i | 0 <= i < |s[1..]| ensures s[1..][i] != s[0] {
            assert s[1..][i] == s[i + 1];
          }
        }
        WithoutMember(s[1..], x, s[0]);
      } else {
        assert x !in s[1..] by {
          forall i | 0 <= i < |s[1..]| ensures s[1..][i] != s[0] {
            assert s[1..][i] == s[i + 1];
          }
        }
        assert Without(s[1..], x) == s[1..] by { WithoutAbsent(s[1..], x); }
      }
    }
  }

  lemma {:induction false} WithoutAbsent<K>(s: seq<K>, x: K)
    requires x !in s
    ensures Without(s, x) == s
  {
    if s != [] {
      WithoutAbsent(s[1..], x);
    }
  }

  lemma {:induction false} WfRemove<K, V>(d: Dict<K, V>, k: K)
    requires Wf(d)
    ensures Wf(Remove(d, k))
    ensures |Remove(d, k)| == if k in Keys(d) then |d| - 1 else |d|
  {
    KeysRemove(d, k);
    WfKeys(d);
    WithoutNoDuplicates(Keys(d), k);
    WfKeys(Remove(d, k));
  }

  /** After `d.update(e)`, the keys of `e` hold `e`'s values and the other keys
      are unchanged. */
  lemma {:induction false} LookupUpdate<K, V>(d: Dict<K, V>, e: Dict<K, V>, j: K)
    requires Wf(e)
    ensures Lookup(Update(d, e), j) == if j in Keys(e) then Lookup(e, j) else Lookup(d, j)
    decreases |e|
  {
    if e != [] {
      LookupUpdate(Set(d, e[0].0, e[0].1), e[1..], j);
      LookupSet(d, e[0].0, e[0].1, j);
      KeysTail(e);
      if j == e[0].0 {
        assert j !in Keys(e[1..]);
      }
    }
  }

  /** `d.update(e)` keeps `d`'s keys in place and appends `e`'s new keys. */
  lemma {:induction false} KeysUpdate<K, V>(d: Dict<K, V>, e: Dict<K, V>)
    ensures Keys(Update(d, e)) == Keys(d) + NewKeys(d, e)
    decreases |e|
  {
    if e != [] {
      var d' := Set(d, e[0].0, e[0].1);
      KeysUpdate(d', e[1..]);
      KeysSet(d, e[0].0, e[0].1);
      if e[0].0 in Keys(d) {
        assert NewKeys(d', e[1..]) == NewKeys(d, e[1..]) by { SetSameKeys(d, e[0].0, e[0].1, e[1..]); }
      }
    }
  }

  lemma {:induction false} SetSameKeys<K, V>(d: Dict<K, V>, k: K, v: V, e: Dict<K, V>)
    requires k in Keys(d)
    ensures NewKeys(Set(d, k, v), e) == NewKeys(d, e)
    decreases |e|
  {
    KeysSet(d, k, v);
    if e != [] && e[0].0 !in Keys(d) {
      var d1 := Set(d, e[0].0, e[0].1);
      var d2 := Set(Set(d, k, v), e[0].0, e[0].1);
      KeysSet(d, e[0].0, e[0].1);
      KeysSet(Set(d, k, v), e[0].0, e[0].1);
      assert Keys(d1) == Keys(d2);
      NewKeysSameKeys(d1, d2, e[1..]);
    } else if e != [] {
      SetSameKeys(d, k, v, e[1..]);
    }
  }

  /** Storing the first item of `[(k, v)] + e` (with any value) and then
      listing the new keys of the rest lists the same keys. */
  lemma KeysSetThenNew<K, V>(d: Dict<K, V>, k: K, m: V, v: V, e: Dict<K, V>)
    ensures Keys(Set(d, k, m)) + NewKeys(Set(d, k, m), e) == Keys(d) + NewKeys(d, [(k, v)] + e)
  {
    var e1 := [(k, v)] + e;
    assert e1[0] == (k, v) && e1[1..] == e;
    if k in Keys(d) {
      KeysSetPresent(d, k, m, e);
    } else {
      KeysSetAbsent(d, k, m, v, e);
    }
  }

  lemma KeysSetPresent<K, V>(d: Dict<K, V>, k: K, m: V, e: Dict<K, V>)
    requires k in Keys(d)
    ensures Keys(Set(d, k, m)) + NewKeys(Set(d, k, m), e) == Keys(d) + NewKeys(d, e)
  {
    KeysSet(d, k, m);
    NewKeysSameKeys(Set(d, k, m), d, e);
  }

  lemma KeysSetAbsent<K, V>(d: Dict<K, V>, k: K, m: V, v: V, e: Dict<K, V>)
    requires k !in Keys(d)
    ensures Keys(Set(d, k, m)) + NewKeys(Set(d, k, m), e) == Keys(d) + ([k] + NewKeys(Set(d, k, v), e))
  {
    var ks, rest := Keys(Set(d, k, m)), NewKeys(Set(d, k, m), e);
    KeysSet(d, k, m);
    assert ks == Keys(d) + [k];
    KeysSet(d, k, v);
    NewKeysSameKeys(Set(d, k, m), Set(d, k, v), e);
    Text.AppendAssoc(Keys(d), [k], rest);
  }

  /** `NewKeys` depends only on the keys of its first argument. */
  lemma {:induction false} NewKeysSameKeys<K, V>(d1: Dict<K, V>, d2: Dict<K, V>, e: Dict<K, V>)
    requires Keys(d1) == Keys(d2)
    ensures NewKeys(d1, e) == NewKeys(d2, e)
    decreases |e|
  {
    if e != [] {
      var k, v := e[0].0, e[0].1;
      if k !in Keys(d1) {
        var a := Set(d1, k, v);
        var b := Set(d2, k, v);
        KeysSet(d1, k, v);
        KeysSet(d2, k, v);
        NewKeysSameKeys(a, b, e[1..]);
        assert NewKeys(d1, e) == [k] + NewKeys(a, e[1..]);
        assert NewKeys(d2, e) == [k] + NewKeys(b, e[1..]);
      } else {
        NewKeysSameKeys(d1, d2, e[1..]);
        assert NewKeys(d1, e) == NewKeys(d1, e[1..]);
        assert NewKeys(d2, e) == NewKeys(d2, e[1..]);
      }
    }
  }

  lemma {:induction false} WfUpdate<K, V>(d: Dict<K, V>, e: Dict<K, V>)
    requires Wf(d)
    ensures Wf(Update(d, e))
    decreases |e|
  {
    if e != [] {
      WfSet(d, e[0].0, e[0].1);
      WfUpdate(Set(d, e[0].0, e[0].1), e[1..]);
    }
  }

  /** In a well-formed dict, the key at `i` does not come back later. */
  lemma WfRest<K, V>(d: Dict<K, V>, i: nat)
    requires Wf(d) && i < |d|
    ensures d[i].0 !in Keys(d[i + 1..])
  {
    var t := d[i + 1..];
    var ks := Keys(t);
    forall j | 0 <= j < |ks| ensures ks[j] != d[i].0 {
      assert t[j] == d[i + 1 + j];
    }
  }

  /** A lookup from position `i` either stops at the entry there or goes on. */
  lemma LookupFrom<K, V>(d: Dict<K, V>, i: nat, k: K)
    requires i < |d|
    ensures k in Keys(d[i..]) <==> k == d[i].0 || k in Keys(d[i + 1..])
    ensures Lookup(d[i..], k) == if k == d[i].0 then Some(d[i].1) else Lookup(d[i + 1..], k)
  {
    assert d[i..][1..] == d[i + 1..];
    KeysTail(d[i..]);
  }

  /** A lookup in `a + b` finds `a`'s entry first. */
  lemma {:induction false} LookupAppend<K, V>(a: Dict<K, V>, b: Dict<K, V>, k: K)
    ensures Lookup(a + b, k) == if k in Keys(a) then Lookup(a, k) else Lookup(b, k)
    decreases |a|
  {
    if a == [] {
      assert a + b == b;
    } else if a[0].0 != k {
      var ab := a + b;
      assert ab[1..] == a[1..] + b;
      LookupAppend(a[1..], b, k);
      KeysTail(a);
    }
  }

  lemma KeysAppend<K, V>(a: Dict<K, V>, b: Dict<K, V>)
    ensures Keys(a + b) == Keys(a) + Keys(b)
  {
  }

  /** Setting an absent key appends it. */
  lemma {:induction false} SetAbsent<K, V>(d: Dict<K, V>, k: K, v: V)
    requires k !in Keys(d)
    ensures Set(d, k, v) == d + [(k, v)]
  {
    if d != [] {
      SetAbsent(d[1..], k, v);
      assert d == [d[0]] + d[1..];
    }
  }

  /** In a well-formed dict, the key at `i` is not one of the earlier ones. */
  lemma WfBefore<K, V>(d: Dict<K, V>, i: nat)
    requires Wf(d) && i < |d|
    ensures d[i].0 !in Keys(d[..i])
  {
    var t := d[..i];
    var ks := Keys(t);
    forall j | 0 <= j < |ks| ensures ks[j] != d[i].0 {
      assert t[j] == d[j];
    }
  }

  /** Setting a key twice keeps only the second value. */
  lemma {:induction false} SetSet<K, V>(d: Dict<K, V>, k: K, a: V, b: V)
    ensures Set(Set(d, k, a), k, b) == Set(d, k, b)
  {
    if d != [] && d[0].0 != k {
      SetSet(d[1..], k, a, b);
    }
  }

  /** Every entry of `Update(d, e)` comes from `d` or from `e`. */
  lemma {:induction false} UpdateEntries<K, V>(d: Dict<K, V>, e: Dict<K, V>, p: V -> bool)
    requires forall x :: x in d ==> p(x.1)
    requires forall x :: x in e ==> p(x.1)
    ensures forall x :: x in Update(d, e) ==> p(x.1)
    decreases |e|
  {
    if e != [] {
      SetEntries(d, e[0].0, e[0].1, p);
      assert forall x :: x in e[1..] ==> x in e;
      UpdateEntries(Set(d, e[0].0, e[0].1), e[1..], p);
    }
  }

  lemma {:induction false} SetEntries<K, V>(d: Dict<K, V>, k: K, v: V, p: V -> bool)
    requires forall x :: x in d ==> p(x.1)
    requires p(v)
    ensures forall x :: x in Set(d, k, v) ==> p(x.1)
  {
    if d != [] && d[0].0 != k {
      assert forall x :: x in d[1..] ==> x in d;
      SetEntries(d[1..], k, v, p);
    } else if d != [] {
      assert forall x :: x in d[1..] ==> x in d;
    }
  }

  lemma WfEmpty<K, V>()
    ensures Wf<K, V>([])
  {
  }

  /** Updating with an empty dict changes nothing. */
  lemma UpdateEmpty<K, V>(d: Dict<K, V>)
    ensures Update(d, []) == d
  {
  }

  /** `d[k] = v` denotes the map update. */
  lemma {:induction false} ToMapSet<K, V>(d: Dict<K, V>, k: K, v: V)
    ensures ToMap(Set(d, k, v)) == ToMap(d)[k := v]
  {
    KeysSet(d, k, v);
    forall j | j in Keys(Set(d, k, v)) ensures Lookup(Set(d, k, v), j) == if j == k then Some(v) else Lookup(d, j) {
      LookupSet(d, k, v, j);
    }
  }

  /** `del d[k]` denotes removing `k` from the map. */
  lemma {:induction false} ToMapRemove<K, V>(d: Dict<K, V>, k: K)
    ensures ToMap(Remove(d, k)) == ToMap(d) - {k}
  {
    var r := Remove(d, k);
    var m, m' := ToMap(r), ToMap(d) - {k};
    forall j ensures j in m <==> j in m' {
      KeysRemove(d, k);
      WithoutMember(Keys(d), k, j);
    }
    forall j | j in m ensures m[j] == m'[j] {
      LookupRemove(d, k, j);
    }
  }

  /** `d.update(e)` denotes the map union in which `e` wins. */
  lemma {:induction false} ToMapUpdate<K, V>(d: Dict<K, V>, e: Dict<K, V>)
    requires Wf(e)
    ensures ToMap(Update(d, e)) == ToMap(d) + ToMap(e)
  {
    var u := Update(d, e);
    forall j | j in Keys(u) || j in Keys(d) || j in Keys(e)
      ensures Lookup(u, j) == if j in Keys(e) then Lookup(e, j) else Lookup(d, j)
    {
      LookupUpdate(d, e, j);
    }
    assert forall j :: j in Keys(u) <==> j in Keys(d) || j in Keys(e) by {
      forall j ensures j in Keys(u) <==> j in Keys(d) || j in Keys(e) {
        LookupUpdate(d, e, j);
      }
    }
  }

  lemma {:induction false} ToMapKeys<K, V>(d: Dict<K, V>)
    ensures ToMap(d).Keys == set k | k in Keys(d)
  {
  }

  /** Two dicts with the same items in the same order are the same dict; a
      well-formed dict is determined by its key order and its mapping. */
  lemma {:induction false} ExtEqual<K, V>(d1: Dict<K, V>, d2: Dict<K, V>)
    requires Wf(d1) && Wf(d2)
    requires Keys(d1) == Keys(d2)
    requires forall k :: k in Keys(d1) ==> Lookup(d1, k) == Lookup(d2, k)
    ensures d1 == d2
  {
    forall i | 0 <= i < |d1| ensures d1[i] == d2[i] {
      var k := d1[i].0;
      assert k in Keys(d1);
      LookupInWf(d1, i);
      LookupInWf(d2, i);
    }
  }

  /** In a well-formed dict, `Lookup` finds the value stored at the key's position. */
  lemma {:induction false} LookupInWf<K, V>(d: Dict<K, V>, i: nat)
    requires Wf(d) && i < |d|
    ensures Lookup(d, d[i].0) == Some(d[i].1)
  {
    if i > 0 {
      assert d[0].0 != d[i].0;
      assert Wf(d[1..]);
      assert d[1..][i - 1] == d[i];
      LookupInWf(d[1..], i - 1);
    }
  }

  /** `dict(items)` of well-formed items is the same dict. */
  lemma {:induction false} FromPairsWf<K, V>(d: Dict<K, V>)
    requires Wf(d)
    ensures FromPairs(d) == d
  {
    WfEmpty<K, V>();
    WfUpdate([], d);
    KeysUpdate([], d);
    NewKeysFresh([], d);
    forall k | k in Keys(FromPairs(d)) ensures Lookup(FromPairs(d), k) == Lookup(d, k) {
      LookupUpdate([], d, k);
    }
    ExtEqual(FromPairs(d), d);
  }

  /** When the keys of `e` are distinct and absent from `d`, all of them are new. */
  lemma {:induction false} NewKeysFresh<K, V>(d: Dict<K, V>, e: Dict<K, V>)
    requires Wf(e)
    requires forall k :: k in Keys(e) ==> k !in Keys(d)
    ensures NewKeys(d, e) == Keys(e)
    decreases |e|
  {
    if e != [] {
      var d' := Set(d, e[0].0, e[0].1);
      KeysSet(d, e[0].0, e[0].1);
      KeysTail(e);
      assert Wf(e[1..]);
      forall k | k in Keys(e[1..]) ensures k !in Keys(d') {
        assert k in Keys(e);
        var i :| 0 <= i < |e[1..]| && Keys(e[1..])[i] == k;
        assert e[i + 1].0 == k;
      }
      NewKeysFresh(d', e[1..]);
    }
  }
}
