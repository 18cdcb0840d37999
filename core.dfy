/** `TemplateCore` of `core.py`: a validated configuration, an
    initialisation flag that guards every operation, a keyed data store,
    item processing and batched operations. Floats are not computed with:
    how a float compares with 0 and what doubling it gives are parameters. */
module Core {
  import opened Wrappers
  import opened PyDict
  import opened Text
  import opened Values

  /** The defaults `_setup_defaults` fills in, in its order. */
  const Defaults: Dict<string, Value> :=
    [("debug", Bool(false)), ("timeout", Int(30)), ("max_retries", Int(3)), ("buffer_size", Int(1024))]

  /** The entries of `defaults` whose key `config` lacks, in order. */
  function Missing(config: Dict<string, Value>, defaults: Dict<string, Value>): Dict<string, Value>
    decreases |defaults|
  {
    if defaults == [] then []
    else
      var last := defaults[|defaults| - 1];
      Missing(config, defaults[..|defaults| - 1]) + (if last.0 in Keys(config) then [] else [last])
  }

  /** `_setup_defaults`: every default key the configuration lacks is added
      after the keys it has. */
  method SetupDefaults(config: Dict<string, Value>) returns (c: Dict<string, Value>)
    ensures c == config + Missing(config, Defaults)
  {
    c := config;
    var i := 0;
    while i < |Defaults|
      invariant 0 <= i <= |Defaults|
      invariant c == config + Missing(config, Defaults[..i])
    {
      var (k, v) := Defaults[i];
      SetupStep(config, c, i);
      if k !in Keys(c) {
        c := PyDict.Set(c, k, v);
      }
      i := i + 1;
    }
    assert Defaults[..i] == Defaults;
  }

  /** One default more: it is added exactly when the configuration lacks it. */
  lemma SetupStep(config: Dict<string, Value>, c: Dict<string, Value>, i: nat)
    requires i < |Defaults| && c == config + Missing(config, Defaults[..i])
    ensures (if Defaults[i].0 !in Keys(c) then PyDict.Set(c, Defaults[i].0, Defaults[i].1) else c) ==
      config + Missing(config, Defaults[..i + 1])
  {
    var (k, v) := Defaults[i];
    assert Defaults[..i + 1][..i] == Defaults[..i];
    KeysAppend(config, Missing(config, Defaults[..i]));
    MissingKeys(config, Defaults[..i], k);
    if k !in Keys(c) {
      SetAbsent(c, k, v);
    }
  }

  /** A key among the missing defaults is one of the defaults. */
  lemma {:induction false} MissingKeys(config: Dict<string, Value>, defaults: Dict<string, Value>, k: string)
    ensures k in Keys(Missing(config, defaults)) ==> k in Keys(defaults) && k !in Keys(config)
    decreases |defaults|
  {
    if defaults != [] {
      var init := defaults[..|defaults| - 1];
      var last := defaults[|defaults| - 1];
      MissingKeys(config, init, k);
      KeysAppend(init, [last]);
      assert init + [last] == defaults;
      if last.0 in Keys(config) {
        assert Missing(config, defaults) == Missing(config, init) + [];
        assert Missing(config, init) + [] == Missing(config, init);
      } else {
        assert Missing(config, defaults) == Missing(config, init) + [last];
        KeysAppend(Missing(config, init), [last]);
      }
    }
  }

  /** After `_setup_defaults` a key keeps its configured value, and a
      missing default key gets its default. */
  lemma {:induction false} LookupWithDefaults(config: Dict<string, Value>, k: string)
    ensures Lookup(config + Missing(config, Defaults), k) ==
      if k in Keys(config) then Lookup(config, k) else Lookup(Defaults, k)
  {
    LookupAppend(config, Missing(config, Defaults), k);
    if k !in Keys(config) {
      LookupMissing(config, Defaults, k);
    }
  }

  lemma {:induction false} LookupMissing(config: Dict<string, Value>, defaults: Dict<string, Value>, k: string)
    requires k !in Keys(config)
    ensures Lookup(Missing(config, defaults), k) == Lookup(defaults, k)
    decreases |defaults|
  {
    if defaults != [] {
      var init := defaults[..|defaults| - 1];
      var last := defaults[|defaults| - 1];
      var tail := if last.0 in Keys(config) then [] else [last];
      assert init + [last] == defaults;
      assert Missing(config, defaults) == Missing(config, init) + tail;
      LookupMissing(config, init, k);
      LookupAppend(Missing(config, init), tail, k);
      LookupAppend(init, [last], k);
      assert Lookup(tail, k) == Lookup([last], k);
    }
  }

  // ---------------------------------------------------------------------
  // Validation

  /** How a number compares with 0 (-1, 0 or 1), or the `TypeError` of
      comparing anything else with 0. `floatSign` gives it for a float
      (1 for NaN, which is neither `<= 0` nor `< 0`). */
  function Sign(v: Value, floatSign: string -> int): (r: Result<int>)
    ensures r.Ok? <==> IsNumber(v)
  {
    match v
    case Int(i) => Ok(if i < 0 then -1 else if i == 0 then 0 else 1)
    case Bool(b) => Ok(if b then 1 else 0)
    case Float(lit) => Ok(floatSign(lit))
    case _ => Err(TypeError)
  }

  predicate IsIntLike(v: Value) { v.Int? || v.Bool? }

  /** `isinstance(config[key], t)` for a key that is present. */
  predicate TypedIf(o: Option<Value>, p: Value -> bool) { o.Some? ==> p(o.value) }

  /** What `_validate_config` accepts, given what the configuration holds
      under `debug`, `timeout`, `max_retries` and `buffer_size`: a `bool`
      debug flag, a positive number as timeout, a non-negative `int` as
      retry count and a positive `int` as buffer size (a `bool` is an
      `int`; an absent key reads as 0). */
  predicate Accepts(debug: Option<Value>, timeout: Option<Value>, retries: Option<Value>, buffer: Option<Value>,
                    floatSign: string -> int)
  {
    TypedIf(debug, (v: Value) => v.Bool?) &&
    timeout.Some? && IsNumber(timeout.value) && Sign(timeout.value, floatSign).value > 0 &&
    (retries.Some? ==> IsIntLike(retries.value) && Sign(retries.value, floatSign).value >= 0) &&
    buffer.Some? && IsIntLike(buffer.value) && Sign(buffer.value, floatSign).value > 0
  }

  predicate ConfigOk(c: Dict<string, Value>, floatSign: string -> int) {
    Accepts(Lookup(c, "debug"), Lookup(c, "timeout"), Lookup(c, "max_retries"), Lookup(c, "buffer_size"), floatSign)
  }

  /** The checks of `_validate_config` on the four looked-up entries. */
  function Check(debug: Option<Value>, timeout: Option<Value>, retries: Option<Value>, buffer: Option<Value>,
                 floatSign: string -> int): (r: Result<()>)
    ensures r.Ok? <==> Accepts(debug, timeout, retries, buffer, floatSign)
    ensures r.Err? ==> r.error == ValueError
  {
    if !TypedIf(debug, (v: Value) => v.Bool?) || !TypedIf(timeout, IsNumber)
      || !TypedIf(retries, IsIntLike) || !TypedIf(buffer, IsIntLike)
    then Err(ValueError)
    else if Sign(timeout.GetOr(Int(0)), floatSign).value <= 0 then Err(ValueError)
    else if Sign(retries.GetOr(Int(0)), floatSign).value < 0 then Err(ValueError)
    else if Sign(buffer.GetOr(Int(0)), floatSign).value <= 0 then Err(ValueError)
    else Ok(())
  }

  /** `_validate_config`: the type checks in key order, then the range
      checks on `config.get(key, 0)`; every failure is a `ValueError`. */
  function ValidateConfig(c: Dict<string, Value>, floatSign: string -> int): (r: Result<()>)
    ensures r.Ok? <==> ConfigOk(c, floatSign)
    ensures r.Err? ==> r.error == ValueError
  {
    Check(Lookup(c, "debug"), Lookup(c, "timeout"), Lookup(c, "max_retries"), Lookup(c, "buffer_size"), floatSign)
  }

  /** What `status` reports. */
  datatype StatusReport = StatusReport(name: string, initialized: bool, config: Dict<string, Value>, dataKeys: seq<string>)

  /** What one item becomes in `process_items`: a string stripped and
      upper-cased, a number doubled, anything else `str(item)`. `render` is
      that `str`; a failing `render` stands for a user object whose
      `__str__` raises, as the tests' `ErrorItem` does (`str` of `None`,
      a list or a dict of these values never raises). */
  function ProcessItem(item: Value, render: Value -> Result<string>, double: string -> string): (r: Result<Value>)
    ensures r.Err? ==> !item.Str? && !IsNumber(item)
    ensures item.Str? ==> r == Ok(Str(Upper(Strip(item.s))))
    ensures item.Int? ==> r == Ok(Int(2 * item.i))
    ensures item.Bool? ==> r == Ok(Int(if item.b then 2 else 0))
    ensures item.Float? ==> r == Ok(Float(double(item.literal)))
    ensures !item.Str? && !IsNumber(item) ==>
      (r.Ok? <==> render(item).Ok?) &&
      (r.Ok? ==> r.value == Str(render(item).value)) &&
      (r.Err? ==> r.error == render(item).error)
  {
    match item
    case Str(s) => Ok(Str(Upper(Strip(s))))
    case Int(i) => Ok(Int(2 * i))
    case Bool(b) => Ok(Int(if b then 2 else 0))
    case Float(lit) => Ok(Float(double(lit)))
    case _ =>
      var text :- render(item);
      Ok(Str(text))
  }

  /** The loop of `process_items` as intended: a failing item is logged and
      skipped, or in debug mode re-raised. */
  function ProcessAll(items: seq<Value>, debug: bool, render: Value -> Result<string>, double: string -> string): Result<seq<Value>>
    decreases |items|
  {
    if items == [] then Ok([])
    else
      match ProcessItem(items[0], render, double)
      case Err(e) => if debug then Err(e) else ProcessAll(items[1..], debug, render, double)
      case Ok(p) =>
        var rest :- ProcessAll(items[1..], debug, render, double);
        Ok([p] + rest)
  }

  /** The loop of `process_items` as written. The `except` clause first logs
      `f"... ({item}): {e}"`, and formatting `{item}` calls `str(item)`
      again, which raises the same error before `debug` is read: a failing
      item always ends the call with its error. */
  function ProcessAllAsWritten(items: seq<Value>, render: Value -> Result<string>, double: string -> string): Result<seq<Value>>
    decreases |items|
  {
    if items == [] then Ok([])
    else
      match ProcessItem(items[0], render, double)
      case Err(_) => Err(render(items[0]).error)
      case Ok(p) =>
        var rest :- ProcessAllAsWritten(items[1..], render, double);
        Ok([p] + rest)
  }

  /** As written, the loop gives the debug-mode result whatever the flag. */
  lemma {:induction false} AsWrittenIsDebug(items: seq<Value>, render: Value -> Result<string>, double: string -> string)
    ensures ProcessAllAsWritten(items, render, double) == ProcessAll(items, true, render, double)
    decreases |items|
  {
    if items != [] {
      AsWrittenIsDebug(items[1..], render, double);
    }
  }

  /** Three items of which the middle one fails: as written, the call raises
      the middle item's error even outside debug mode, where the intended
      loop keeps the outer two. */
  lemma HandlerReraises(x: Value, bad: Value, y: Value, render: Value -> Result<string>, double: string -> string)
    requires ProcessItem(x, render, double).Ok? && ProcessItem(bad, render, double).Err?
    requires ProcessItem(y, render, double).Ok?
    ensures ProcessAllAsWritten([x, bad, y], render, double) == Err(ProcessItem(bad, render, double).error)
    ensures ProcessAll([x, bad, y], false, render, double).Ok?
  {
    var items, tail := [x, bad, y], [bad, y];
    assert items[0] == x && items[1..] == tail && tail[0] == bad;
    AsWrittenIsDebug(items, render, double);
    ProcessStep([], items, true, render, double);
    ProcessStep([ProcessItem(x, render, double).value], tail, true, render, double);
    PrependEmpty(ProcessAll(items, true, render, double));
    SkipMiddle(x, bad, y, render, double);
  }

  /** How many items fail to process. */
  function Failures(items: seq<Value>, render: Value -> Result<string>, double: string -> string): (n: nat)
    ensures n <= |items|
  {
    if items == [] then 0
    else (if ProcessItem(items[0], render, double).Err? then 1 else 0) + Failures(items[1..], render, double)
  }

  /** `acc` in front of a result. */
  function Prepend(acc: seq<Value>, r: Result<seq<Value>>): Result<seq<Value>> {
    match r
    case Ok(x) => Ok(acc + x)
    case Err(e) => Err(e)
  }

  lemma PrependEmpty(r: Result<seq<Value>>)
    ensures Prepend([], r) == r
  {
    if r.Ok? {
      assert [] + r.value == r.value;
    }
  }

  /** One turn of the loop of `process_items`, at position `i`. */
  lemma ProcessAdvance(acc: seq<Value>, xs: seq<Value>, i: nat, debug: bool,
                       render: Value -> Result<string>, double: string -> string)
    requires i < |xs|
    ensures ProcessItem(xs[i], render, double).Err? && debug ==>
      Prepend(acc, ProcessAll(xs[i..], debug, render, double)) == Err(ProcessItem(xs[i], render, double).error)
    ensures ProcessItem(xs[i], render, double).Err? && !debug ==>
      Prepend(acc, ProcessAll(xs[i..], debug, render, double)) == Prepend(acc, ProcessAll(xs[i + 1..], debug, render, double))
    ensures ProcessItem(xs[i], render, double).Ok? ==>
      Prepend(acc, ProcessAll(xs[i..], debug, render, double))
        == Prepend(acc + [ProcessItem(xs[i], render, double).value], ProcessAll(xs[i + 1..], debug, render, double))
  {
    ProcessStep(acc, xs[i..], debug, render, double);
    assert xs[i..][0] == xs[i] && xs[i..][1..] == xs[i + 1..];
  }

  /** One turn of the loop of `process_items`. */
  lemma ProcessStep(acc: seq<Value>, xs: seq<Value>, debug: bool, render: Value -> Result<string>, double: string -> string)
    requires xs != []
    ensures ProcessItem(xs[0], render, double).Err? && debug ==>
      Prepend(acc, ProcessAll(xs, debug, render, double)) == Err(ProcessItem(xs[0], render, double).error)
    ensures ProcessItem(xs[0], render, double).Err? && !debug ==>
      Prepend(acc, ProcessAll(xs, debug, render, double)) == Prepend(acc, ProcessAll(xs[1..], debug, render, double))
    ensures ProcessItem(xs[0], render, double).Ok? ==>
      Prepend(acc, ProcessAll(xs, debug, render, double))
        == Prepend(acc + [ProcessItem(xs[0], render, double).value], ProcessAll(xs[1..], debug, render, double))
  {
    var rest := ProcessAll(xs[1..], debug, render, double);
    if ProcessItem(xs[0], render, double).Ok? && rest.Ok? {
      var p := ProcessItem(xs[0], render, double).value;
      assert acc + ([p] + rest.value) == (acc + [p]) + rest.value;
    }
  }

  /** The items that process without raising, in their order. */
  function Processable(items: seq<Value>, render: Value -> Result<string>, double: string -> string): (ok: seq<Value>)
    ensures |ok| == |items| - Failures(items, render, double)
    ensures forall x :: x in ok ==> x in items && ProcessItem(x, render, double).Ok?
    decreases |items|
  {
    if items == [] then []
    else
      var rest := Processable(items[1..], render, double);
      assert forall x :: x in items[1..] ==> x in items;
      if ProcessItem(items[0], render, double).Ok? then [items[0]] + rest else rest
  }

  /** What each processable item becomes, in order. */
  function Processed(ok: seq<Value>, render: Value -> Result<string>, double: string -> string): (out: seq<Value>)
    requires forall x :: x in ok ==> ProcessItem(x, render, double).Ok?
    ensures |out| == |ok|
  {
    if ok == [] then []
    else
      assert forall x :: x in ok[1..] ==> x in ok;
      [ProcessItem(ok[0], render, double).value] + Processed(ok[1..], render, double)
  }

  /** Outside debug mode nothing is raised, and the output is what the items
      that process became, in their order: the failing ones are skipped. */
  lemma {:induction false} ProcessSkips(items: seq<Value>, render: Value -> Result<string>, double: string -> string)
    ensures ProcessAll(items, false, render, double).Ok?
    ensures |ProcessAll(items, false, render, double).value| == |items| - Failures(items, render, double)
    ensures ProcessAll(items, false, render, double).value ==
      Processed(Processable(items, render, double), render, double)
    decreases |items|
  {
    if items != [] {
      ProcessSkips(items[1..], render, double);
      ProcessStep([], items, false, render, double);
      PrependEmpty(ProcessAll(items, false, render, double));
      var rest := Processable(items[1..], render, double);
      var p := ProcessItem(items[0], render, double);
      if p.Ok? {
        var ok := Processable(items, render, double);
        assert ok == [items[0]] + rest && ok[1..] == rest;
      } else {
        PrependEmpty(ProcessAll(items[1..], false, render, double));
      }
    }
  }

  /** Three items of which the middle one fails: the outer two are kept. */
  lemma SkipMiddle(x: Value, bad: Value, y: Value, render: Value -> Result<string>, double: string -> string)
    requires ProcessItem(x, render, double).Ok? && ProcessItem(bad, render, double).Err?
    requires ProcessItem(y, render, double).Ok?
    ensures ProcessAll([x, bad, y], false, render, double) ==
      Ok([ProcessItem(x, render, double).value, ProcessItem(y, render, double).value])
  {
    var px, py := ProcessItem(x, render, double).value, ProcessItem(y, render, double).value;
    var items, tail, last := [x, bad, y], [bad, y], [y];
    assert items[0] == x && items[1..] == tail && tail[0] == bad && tail[1..] == last;
    assert last[0] == y && last[1..] == [];
    ProcessStep([], items, false, render, double);
    ProcessStep([px], tail, false, render, double);
    ProcessStep([px], last, false, render, double);
    PrependEmpty(ProcessAll(items, false, render, double));
    assert [] + [px] == [px] && [px] + [py] + [] == [px, py];
  }

  /** A word without surrounding whitespace is processed into its upper case. */
  lemma ProcessWord(s: string, u: string, render: Value -> Result<string>, double: string -> string)
    requires s != [] && !IsSpace(s[0]) && !IsSpace(s[|s| - 1])
    requires |u| == |s| && forall k :: 0 <= k < |s| ==> u[k] == UpperChar(s[k])
    ensures ProcessItem(Str(s), render, double) == Ok(Str(u))
  {
    StripUnchanged(s);
    assert Upper(s) == u;
  }

  /** The position of the first item at or after `i` that fails to
      process, or `|items|`. */
  function FirstFailure(items: seq<Value>, render: Value -> Result<string>, double: string -> string, i: nat := 0): (k: nat)
    requires i <= |items|
    ensures i <= k <= |items|
    ensures forall j :: i <= j < k ==> ProcessItem(items[j], render, double).Ok?
    ensures k < |items| ==> ProcessItem(items[k], render, double).Err?
    decreases |items| - i
  {
    if i == |items| || ProcessItem(items[i], render, double).Err? then i
    else FirstFailure(items, render, double, i + 1)
  }

  /** In debug mode the call fails exactly when some item fails, and then
      with the error of the first item that fails. */
  lemma {:induction false} ProcessDebug(items: seq<Value>, render: Value -> Result<string>, double: string -> string)
    ensures ProcessAll(items, true, render, double).Err? <==> Failures(items, render, double) > 0
    ensures ProcessAll(items, true, render, double).Err? ==>
      FirstFailure(items, render, double) < |items| &&
      ProcessAll(items, true, render, double).error ==
        ProcessItem(items[FirstFailure(items, render, double)], render, double).error
    decreases |items|
  {
    if items != [] {
      ProcessDebug(items[1..], render, double);
    }
    assert items[0..] == items;
    DebugFrom(items, 0, render, double);
  }

  /** In debug mode the loop from position `i` fails with the error of the
      first item from `i` on that fails. */
  lemma {:induction false} DebugFrom(items: seq<Value>, i: nat, render: Value -> Result<string>, double: string -> string)
    requires i <= |items|
    ensures ProcessAll(items[i..], true, render, double).Err? ==>
      FirstFailure(items, render, double, i) < |items| &&
      ProcessAll(items[i..], true, render, double).error ==
        ProcessItem(items[FirstFailure(items, render, double, i)], render, double).error
    decreases |items| - i
  {
    if i < |items| {
      DebugFrom(items, i + 1, render, double);
      ProcessAdvance([], items, i, true, render, double);
      PrependEmpty(ProcessAll(items[i..], true, render, double));
      PrependEmpty(ProcessAll(items[i + 1..], true, render, double));
    }
  }

  /** With no failures, item `k` of the output is what item `k` became, in
      either mode. */
  lemma {:induction false} ProcessInOrder(items: seq<Value>, debug: bool, render: Value -> Result<string>, double: string -> string)
    requires forall k :: 0 <= k < |items| ==> ProcessItem(items[k], render, double).Ok?
    ensures ProcessAll(items, debug, render, double).Ok?
    ensures |ProcessAll(items, debug, render, double).value| == |items|
    ensures forall k :: 0 <= k < |items| ==>
      ProcessAll(items, debug, render, double).value[k] == ProcessItem(items[k], render, double).value
    decreases |items|
  {
    if items != [] {
      assert forall k :: 0 <= k < |items[1..]| ==> items[1..][k] == items[k + 1];
      ProcessInOrder(items[1..], debug, render, double);
      var rest := ProcessAll(items[1..], debug, render, double).value;
      var all := ProcessAll(items, debug, render, double).value;
      assert all == [ProcessItem(items[0], render, double).value] + rest;
      forall k | 0 <= k < |items| ensures all[k] == ProcessItem(items[k], render, double).value {
        if k > 0 {
          assert all[k] == rest[k - 1];
          assert items[1..][k - 1] == items[k];
        }
      }
    }
  }

  // ---------------------------------------------------------------------
  // Batch operations

  /** The `int` part of `sum(x for x in xs if isinstance(x, (int, float)))`
      (a `bool` counts as 0 or 1). */
  function IntTotal(xs: seq<Value>): int {
    if xs == [] then 0
    else (match xs[0] case Int(i) => i case Bool(b) => if b then 1 else 0 case _ => 0) + IntTotal(xs[1..])
  }

  /** The floats that sum adds, in order. */
  function FloatTerms(xs: seq<Value>): seq<string> {
    if xs == [] then [] else (if xs[0].Float? then [xs[0].literal] else []) + FloatTerms(xs[1..])
  }

  /** `sum(1 for x in xs if x is not None)`. */
  function NotNone(xs: seq<Value>): (n: nat)
    ensures n <= |xs|
  {
    if xs == [] then 0 else (if xs[0].Null? then 0 else 1) + NotNone(xs[1..])
  }

  lemma {:induction false} TotalsAppend(a: seq<Value>, b: seq<Value>)
    ensures IntTotal(a + b) == IntTotal(a) + IntTotal(b)
    ensures FloatTerms(a + b) == FloatTerms(a) + FloatTerms(b)
    ensures NotNone(a + b) == NotNone(a) + NotNone(b)
    decreases |a|
  {
    if a == [] {
      assert a + b == b;
    } else {
      assert (a + b)[1..] == a[1..] + b;
      TotalsAppend(a[1..], b);
    }
  }

  /** What `batch_operation` computes. */
  datatype BatchResult =
    | SumResult(intTotal: int, floatTerms: seq<string>)
    | CountResult(count: nat)
    | ValidateResult(valid: nat, invalid: int)

  datatype BatchReport = BatchReport(operation: string, totalItems: nat, batchSize: int,
                                     batchesProcessed: nat, result: BatchResult)

  /** How many slices `range(0, n, size)` makes: none for an empty list or
      a negative step. */
  function Batches(n: int, size: int): nat
    decreases n
  {
    if size <= 0 || n <= 0 then 0 else 1 + Batches(n - size, size)
  }

  /** For a positive step the slices cover the data and the last one is not
      empty: `Batches` is `ceil(n / size)`. */
  lemma {:induction false} BatchesBounds(n: int, size: int)
    requires size > 0 && n > 0
    ensures (Batches(n, size) - 1) * size < n <= Batches(n, size) * size
    decreases n
  {
    if n > size {
      BatchesBounds(n - size, size);
      var b := Batches(n - size, size);
      assert (b + 1) * size == b * size + size;
    }
  }

  function Min(a: int, b: int): int { if a < b then a else b }

  /** The batch loop of `sum` and `validate` for a step that is not 0: the
      batch sums add up to the sums over all the data. */
  method RunBatches(data: seq<Value>, size: int) returns (ints: int, floats: seq<string>, valid: nat, batches: nat)
    requires size != 0
    ensures size > 0 ==> ints == IntTotal(data) && floats == FloatTerms(data) && valid == NotNone(data)
    ensures size < 0 ==> ints == 0 && floats == [] && valid == 0
    ensures batches == Batches(|data|, size)
  {
    ints, floats, valid, batches := 0, [], 0, 0;
    if size < 0 {
      return;
    }
    var i := 0;
    while i < |data|
      invariant 0 <= i
      invariant batches + Batches(|data| - i, size) == Batches(|data|, size)
      invariant ints == IntTotal(data[..Min(i, |data|)])
      invariant floats == FloatTerms(data[..Min(i, |data|)])
      invariant valid == NotNone(data[..Min(i, |data|)])
      decreases |data| - i
    {
      var end := Min(i + size, |data|);
      var batch := data[i..end];
      BatchStep(data, i, end);
      ints := ints + IntTotal(batch);
      floats := floats + FloatTerms(batch);
      valid := valid + NotNone(batch);
      batches := batches + 1;
      i := i + size;
    }
    assert data[..Min(i, |data|)] == data;
  }

  lemma BatchStep(data: seq<Value>, i: nat, end: nat)
    requires i <= end <= |data|
    ensures IntTotal(data[..end]) == IntTotal(data[..i]) + IntTotal(data[i..end])
    ensures FloatTerms(data[..end]) == FloatTerms(data[..i]) + FloatTerms(data[i..end])
    ensures NotNone(data[..end]) == NotNone(data[..i]) + NotNone(data[i..end])
  {
    assert data[..i] + data[i..end] == data[..end];
    TotalsAppend(data[..i], data[i..end]);
  }

  const Operations: seq<string> := ["sum", "count", "validate"]

  /** `TemplateCore`. The configuration is the one validated at
      construction; the data store holds each key once. */
  class TemplateCore {
    const name: string
    const config: Dict<string, Value>
    var initialized: bool
    var data: WfDict<string, Value>

    /** What validation guarantees for the flags the operations read. */
    ghost predicate Valid()
      reads this
    {
      Lookup(config, "debug").Some? && Lookup(config, "debug").value.Bool? &&
      Lookup(config, "buffer_size").Some? && IsIntLike(Lookup(config, "buffer_size").value)
    }

    constructor (name: string, config: Dict<string, Value>)
      requires Lookup(config, "debug").Some? && Lookup(config, "debug").value.Bool?
      requires Lookup(config, "buffer_size").Some? && IsIntLike(Lookup(config, "buffer_size").value)
      ensures Valid() && this.name == name && this.config == config
      ensures initialized && data == []
    {
      this.name := name;
      this.config := config;
      initialized := true;
      data := [];
    }

    /** `config.get("debug", False)`. */
    function Debug(): bool
      reads this
      requires Valid()
    {
      Lookup(config, "debug").value.b
    }

    /** `config.get("buffer_size", 1024)` as an `int`. */
    function BufferSize(): int
      reads this
      requires Valid()
    {
      match Lookup(config, "buffer_size").value
      case Int(i) => i
      case Bool(b) => if b then 1 else 0
      case _ => 0
    }

    /** `status`. */
    function Status(): (s: StatusReport)
      reads this
      ensures s.dataKeys == Keys(data) && s.initialized == initialized && s.config == config
    {
      StatusReport(name, initialized, config, Keys(data))
    }

    /** `set_data(key, value)`. */
    method SetData(key: string, value: Value) returns (r: Result<()>)
      modifies this
      ensures initialized == old(initialized)
      ensures !initialized ==> r == Err(RuntimeError) && data == old(data)
      ensures initialized ==> r == Ok(()) && ToMap(data) == old(ToMap(data))[key := value]
      ensures initialized ==> Keys(data) == if key in Keys(old(data)) then Keys(old(data)) else Keys(old(data)) + [key]
    {
      if !initialized {
        return Err(RuntimeError);
      }
      WfSet(data, key, value);
      ToMapSet(data, key, value);
      KeysSet(data, key, value);
      data := PyDict.Set(data, key, value);
      r := Ok(());
    }

    /** `get_data(key, default)`. */
    function GetData(key: string, default: Value): (r: Result<Value>)
      reads this
      ensures !initialized <==> r == Err(RuntimeError)
      ensures r.Ok? ==> r.value == if key in ToMap(data) then ToMap(data)[key] else default
    {
      if !initialized then Err(RuntimeError) else Ok(Get(data, key, default))
    }

    /** `remove_data(key)`. */
    method RemoveData(key: string) returns (r: Result<bool>)
      modifies this
      ensures initialized == old(initialized)
      ensures !initialized ==> r == Err(RuntimeError) && data == old(data)
      ensures initialized ==> r.Ok? && (r.value <==> key in old(ToMap(data)))
      ensures initialized ==> ToMap(data) == old(ToMap(data)) - {key}
      ensures initialized ==> Keys(data) == Without(old(Keys(data)), key) && Status().dataKeys == Keys(data)
      ensures initialized && !r.value ==> data == old(data)
    {
      if !initialized {
        return Err(RuntimeError);
      }
      var present := key in Keys(data);
      if present {
        WfRemove(data, key);
        ToMapRemove(data, key);
        KeysRemove(data, key);
        data := Remove(data, key);
      } else {
        WithoutAbsent(Keys(data), key);
      }
      r := Ok(present);
    }

    /** `clear_data()`. */
    method ClearData() returns (r: Result<()>)
      modifies this
      ensures initialized == old(initialized)
      ensures !initialized ==> r == Err(RuntimeError) && data == old(data)
      ensures initialized ==> r == Ok(()) && data == [] && Status().dataKeys == []
    {
      if !initialized {
        return Err(RuntimeError);
      }
      data := [];
      r := Ok(());
    }

    /** `process_items(items)` as written: the `except` clause's message
        renders the failing item again and raises, so `debug` is never
        read and the first failing item's error ends the call. */
    method ProcessItems(items: Value, render: Value -> Result<string>, double: string -> string) returns (r: Result<seq<Value>>)
      requires Valid()
      ensures !initialized ==> r == Err(RuntimeError)
      ensures initialized && !items.List? ==> r == Err(TypeError)
      ensures initialized && items.List? ==> r == ProcessAllAsWritten(items.items, render, double)
      ensures initialized && items.List? ==> r == ProcessAll(items.items, true, render, double)
    {
      if !initialized {
        return Err(RuntimeError);
      }
      if !items.List? {
        return Err(TypeError);
      }
      var xs := items.items;
      AsWrittenIsDebug(xs, render, double);
      var processed: seq<Value> := [];
      var i := 0;
      assert xs[0..] == xs;
      PrependEmpty(ProcessAll(xs, true, render, double));
      while i < |xs|
        invariant 0 <= i <= |xs|
        invariant ProcessAll(xs, true, render, double) == Prepend(processed, ProcessAll(xs[i..], true, render, double))
      {
        ProcessAdvance(processed, xs, i, true, render, double);
        var p := ProcessItem(xs[i], render, double);
        if p.Err? {
          var logged := render(xs[i]);
          return Err(logged.error);
        }
        processed := processed + [p.value];
        i := i + 1;
      }
      assert xs[i..] == [];
      r := Ok(processed + []);
      assert processed + [] == processed;
    }

    /** `process_items(items)` as intended, with a message that does not
        render the item: a failing item is skipped, or in debug mode
        re-raised. */
    method ProcessItemsSkipping(items: Value, render: Value -> Result<string>, double: string -> string) returns (r: Result<seq<Value>>)
      requires Valid()
      ensures !initialized ==> r == Err(RuntimeError)
      ensures initialized && !items.List? ==> r == Err(TypeError)
      ensures initialized && items.List? ==> r == ProcessAll(items.items, Debug(), render, double)
    {
      if !initialized {
        return Err(RuntimeError);
      }
      if !items.List? {
        return Err(TypeError);
      }
      var xs := items.items;
      var debug := Debug();
      var processed: seq<Value> := [];
      var i := 0;
      assert xs[0..] == xs;
      PrependEmpty(ProcessAll(xs, debug, render, double));
      while i < |xs|
        invariant 0 <= i <= |xs|
        invariant ProcessAll(xs, debug, render, double) == Prepend(processed, ProcessAll(xs[i..], debug, render, double))
      {
        ProcessAdvance(processed, xs, i, debug, render, double);
        var p := ProcessItem(xs[i], render, double);
        if p.Err? {
          if debug {
            return Err(p.error);
          }
        } else {
          processed := processed + [p.value];
        }
        i := i + 1;
      }
      assert xs[i..] == [];
      r := Ok(processed + []);
      assert processed + [] == processed;
    }

    /** `batch_operation(operation, data, batch_size)`; a `batch_size` of 0
        makes `range` raise `ValueError` for `sum` and `validate`. */
    method BatchOperation(op: string, items: seq<Value>, batchSize: Option<int>) returns (r: Result<BatchReport>)
      requires Valid()
      ensures !initialized ==> r == Err(RuntimeError)
      ensures initialized && op !in Operations ==> r == Err(ValueError)
      ensures r.Ok? ==>
        (r.value.operation == op && r.value.totalItems == |items| && r.value.batchSize == batchSize.GetOr(BufferSize()))
      ensures r.Ok? && op == "count" ==> r.value.result == CountResult(|items|) && r.value.batchesProcessed == 1
      ensures r.Ok? && op != "count" ==> r.value.batchesProcessed == Batches(|items|, batchSize.GetOr(BufferSize()))
      ensures r.Ok? && op == "sum" && batchSize.GetOr(BufferSize()) > 0 ==>
        r.value.result == SumResult(IntTotal(items), FloatTerms(items))
      ensures r.Ok? && op == "validate" && batchSize.GetOr(BufferSize()) > 0 ==>
        r.value.result == ValidateResult(NotNone(items), |items| - NotNone(items))
      ensures r.Ok? && op == "sum" && batchSize.GetOr(BufferSize()) < 0 ==> r.value.result == SumResult(0, [])
      ensures r.Ok? && op == "validate" && batchSize.GetOr(BufferSize()) < 0 ==>
        r.value.result == ValidateResult(0, |items|)
      ensures initialized && op in Operations && op != "count" ==> (r.Err? <==> batchSize.GetOr(BufferSize()) == 0)
      ensures initialized && op == "count" ==> r.Ok?
    {
      if !initialized {
        return Err(RuntimeError);
      }
      var size := batchSize.GetOr(BufferSize());
      if op !in Operations {
        return Err(ValueError);
      }
      if op == "count" {
        return Ok(BatchReport(op, |items|, size, 1, CountResult(|items|)));
      }
      if size == 0 {
        return Err(ValueError);
      }
      var ints, floats, valid, batches := RunBatches(items, size);
      var result := if op == "sum" then SumResult(ints, floats) else ValidateResult(valid, |items| - valid);
      r := Ok(BatchReport(op, |items|, size, batches, result));
    }
  }

  /** Constructing a `TemplateCore`: defaults are filled in, then the
      configuration is validated; a `ValueError` means no instance. */
  method NewTemplateCore(name: string, config: Dict<string, Value>, floatSign: string -> int) returns (r: Result<TemplateCore>)
    ensures r.Err? <==> !ConfigOk(config + Missing(config, Defaults), floatSign)
    ensures r.Err? ==> r.error == ValueError
    ensures r.Ok? ==> fresh(r.value) && r.value.Valid() && r.value.initialized && r.value.data == []
    ensures r.Ok? ==> r.value.name == name && r.value.config == config + Missing(config, Defaults)
  {
    var c := SetupDefaults(config);
    var v := ValidateConfig(c, floatSign);
    if v.Err? {
      return Err(ValueError);
    }
    LookupWithDefaults(config, "debug");
    var core := new TemplateCore(name, c);
    r := Ok(core);
  }

  /** Whatever the caller passes, a constructed instance has all four
      configuration keys, and keeps the value of each one it was given. */
  lemma ConfigComplete(config: Dict<string, Value>, k: string)
    requires k in Keys(Defaults)
    ensures k in Keys(config + Missing(config, Defaults))
    ensures k in Keys(config) ==> Lookup(config + Missing(config, Defaults), k) == Lookup(config, k)
  {
    LookupWithDefaults(config, k);
  }
}
