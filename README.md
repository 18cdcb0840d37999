# python-template, modelled in Dafny

`python-template` is a Python project scaffold: a package of small utilities
(a runtime context store, dict and list helpers, a `TemplateCore` service
class, a `ConfigManager`, decorators, date, file and JSON helpers, Pydantic
models and settings validators) plus maintenance scripts that bump the
version, rename the package and generate release notes. This project models
the deterministic logic of those pieces and proves what the code promises
about it.

The model follows the code's own shape:

- Python values are the datatype `Value` (`None`, `bool`, `int`, `str`,
  list, dict, and a float kept as its text), and a dict is an association
  sequence in insertion order, since `keys()`, `list_contexts()` and the
  output of `flatten_dict` expose that order (`pydict.dfy`, `values.dfy`).
  Python's `str` methods (`strip`, `split`, `replace`, `upper`, `int`,
  `str(int)`) are modelled once in `text.dfy`.
- Raised exceptions are `Result` values carrying an `ErrorKind`
  (`wrappers.dfy`).
- State that the code changes in place is a class whose methods say how
  they change it: `Context` and `ContextManager` and the module globals of
  `context.py`, `TemplateCore`, `ConfigManager`, and the `singleton`
  closure. Loops in the source are `while` loops with their invariants,
  each proved against a function that specifies it (`_setup_defaults`,
  `process_items`, the batch loops of `batch_operation`, `first_non_none`,
  `batch_process`, the eager `chunk_list` and `merge_dicts` of `utils.py`,
  the retry wrapper, `humanize_timedelta`, `get_files_to_update` and
  `update_all`).
- Files on disk are a map from path to content. The environment, the
  project root and the float parser are parameters.

`context.py` keeps one shared dict per `Context`, guarded by a lock; the
model is a sequential, shared mapping.

## Model

| member | source | states |
|---|---|---|
| ContextStore.Context.constructor | src/python_template/utils/context.py:37-47 | a new context has the given name and no entries |
| ContextStore.Context.Unnamed | src/python_template/utils/context.py:37-47 | a context created without a name is called `"default"` and has no entries |
| ContextStore.Context.Set | src/python_template/utils/context.py:49-59 | afterwards the key maps to the value and every other key is unchanged; an existing key keeps its position and a new key goes last |
| ContextStore.Context.Get | src/python_template/utils/context.py:61-74 | the stored value for a present key, the default for a missing one |
| ContextStore.Context.Delete | src/python_template/utils/context.py:76-91 | returns true exactly when the key was present; afterwards the key is gone, the other keys keep their values and order, and a false result changes nothing |
| ContextStore.Context.Has | src/python_template/utils/context.py:93-105 | true exactly when the key is stored |
| ContextStore.Context.Clear | src/python_template/utils/context.py:107-113 | the context is left empty |
| ContextStore.Context.KeyList | src/python_template/utils/context.py:115-124 | every stored key exactly once, in insertion order, and nothing else |
| ContextStore.Context.ValueList | src/python_template/utils/context.py:126-135 | one value per key, each the value stored under the key at that position |
| ContextStore.Context.ItemList | src/python_template/utils/context.py:137-146 | pair `i` is key `i` with its stored value: every stored pair once, in key order |
| ContextStore.Context.Update | src/python_template/utils/context.py:148-157 | the new mapping is the old one overridden by the argument; old keys keep their order and the argument's new keys follow |
| ContextStore.Context.ToDict | src/python_template/utils/context.py:159-168 | a value copy with the same mapping and key order |
| ContextStore.Context.Length | src/python_template/utils/context.py:170-176 | the number of stored keys |
| ContextStore.KeysCard | src/python_template/utils/context.py:170-176 | `len` counts the items of the dict: the number of distinct keys equals the number of entries |
| ContextStore.ContextManager.constructor | src/python_template/utils/context.py:205-211 | a new manager has no registered context |
| ContextStore.ContextManager.CreateContext | src/python_template/utils/context.py:213-232 | a taken name gives `ValueError` and leaves the registry unchanged; otherwise a fresh empty context with that name is registered last and returned |
| ContextStore.ContextManager.GetContext | src/python_template/utils/context.py:234-246 | the context registered under the name, or none; it never registers anything |
| ContextStore.ContextManager.GetOrCreateContext | src/python_template/utils/context.py:248-262 | a registered name returns the same object and leaves the registry unchanged; otherwise exactly one fresh empty context is registered last |
| ContextStore.ContextManager.DeleteContext | src/python_template/utils/context.py:264-279 | returns true exactly when the name was registered; afterwards it is not, and the other registrations keep their order |
| ContextStore.ContextManager.ClearAll | src/python_template/utils/context.py:281-287 | the registry is left empty |
| ContextStore.ContextManager.ListContexts | src/python_template/utils/context.py:289-298 | name `i` is the name of the `i`-th registered context: each registered name exactly once, in creation order, and no other name |
| ContextStore.Runtime.constructor | src/python_template/utils/context.py:302-303 | at import time neither the global context nor the manager exists |
| ContextStore.Runtime.GetContext | src/python_template/utils/context.py:306-324 | creates the manager on first use only; returns the context registered for the name, registering a fresh empty one last when there is none; the global context is untouched and is never the returned context |
| ContextStore.Runtime.GetGlobalContext | src/python_template/utils/context.py:327-338 | creates the context named "global" on first use and returns that same object afterwards; the manager is untouched, and the global context is never one of the manager's contexts (an invariant every operation keeps) |
| ContextStore.Runtime.GlobalApart | src/python_template/utils/context.py:306-338 | the global context and the context got by name are different objects, even for the name "global" |
| ContextStore.Runtime.SetGlobal | src/python_template/utils/context.py:381-390 | creates the global context when there is none; afterwards it maps the key to the value and keeps its other keys |
| ContextStore.Runtime.GetGlobal | src/python_template/utils/context.py:393-405 | the global context's value for the key, or the default |
| ContextStore.Runtime.ClearGlobal | src/python_template/utils/context.py:408-413 | the global context is left empty, so every later `get_global` gives its default |
| ContextStore.Runtime.EnterScope | src/python_template/utils/context.py:341-365 | the scope's context is the one registered for the name (an existing one reused, otherwise a fresh one registered last), is not the global context, and holds its earlier data merged with the initial data; it is the only registered context it may write, so every other context keeps its data |
| ContextStore.Runtime.ExitScope | src/python_template/utils/context.py:366-377 | the name is unregistered and the other registrations keep their order |
| ContextStore.Runtime.ContextScope | src/python_template/utils/context.py:341-377 | on every exit, by return or exception, the name is unregistered, even if it was registered before the scope; an exception propagates; a normal exit saw the earlier data, then the initial data, then the body's writes; only the context registered under the name may be written, every other registered context keeps its data |
| ContextStore.Initial | src/python_template/utils/context.py:362-363 | no initial data adds nothing; given initial data adds exactly its keys |
| ContextStore.RemoveAppended | src/python_template/utils/context.py:366-377 | registering a name and then deleting it gives back the registry as it was without that name |
| CommonUtils.ChunksOf | src/python_template/utils/common_utils.py:24-38 | the chunks concatenate to the data, none is empty or longer than the size, all but the last have exactly the size, and there are none only for empty data |
| CommonUtils.ChunkCount | src/python_template/utils/common_utils.py:24-38 | there are `ceil(len(data) / size)` chunks |
| CommonUtils.ChunkList | src/python_template/utils/common_utils.py:24-38 | `ValueError` exactly when the size is not positive, otherwise the chunks above |
| CommonUtils.EnsureList | src/python_template/utils/common_utils.py:41-54 | `None` gives `[]`, a list gives itself, anything else a one-item list |
| CommonUtils.FirstNonNone | src/python_template/utils/common_utils.py:57-69 | `None` exactly when every argument is `None`; otherwise an argument preceded only by `None`s |
| CommonUtils.FlattenDict | src/python_template/utils/common_utils.py:77-99 | no value of the result is a dict |
| CommonUtils.FlattenItemsKeyed | src/python_template/utils/common_utils.py:77-99 | the collected items are the leaf paths of the dict, joined with the separator below the parent key, in order |
| CommonUtils.LeafShape | src/python_template/utils/common_utils.py:77-99 | every leaf path is non-empty, starts with a key of the dict and ends at a value that is not a dict |
| CommonUtils.LeafDistinct | src/python_template/utils/common_utils.py:77-99 | distinct keys at every level give distinct leaf paths |
| CommonUtils.KeyedWf | src/python_template/utils/common_utils.py:77-99 | distinct paths whose keys avoid the separator's first character give distinct flat keys |
| CommonUtils.UnflattenDict | src/python_template/utils/common_utils.py:102-119 | with an empty separator it fails exactly when there is a key to split |
| CommonUtils.InsertPathIsSetPath | src/python_template/utils/common_utils.py:112-118 | one `setdefault` walk succeeds exactly when `safe_set` with `create` does and builds the same dict; its failures are `TypeError` or `AttributeError` |
| CommonUtils.InsertPathThenGet | src/python_template/utils/common_utils.py:112-118 | one step succeeds exactly when every existing intermediate is a dict, and then the value is found at the key's split path |
| CommonUtils.UnflattenKeyed | src/python_template/utils/common_utils.py:102-119 | splitting keys joined from separator-free paths recovers the paths |
| CommonUtils.FlattenRoundTrip | src/python_template/utils/common_utils.py:77-119 | `unflatten_dict(flatten_dict(d, "", sep), sep) == d` when every dict has distinct keys, no key holds the separator's first character, no nested dict is empty and no nested dict sits under the key `""` |
| CommonUtils.MergedValue | src/python_template/utils/common_utils.py:130-137 | a value that is not a dict overrides; the result is a dict exactly when the overriding value is |
| CommonUtils.LookupMerge | src/python_template/utils/common_utils.py:122-138 | each key of `dict2` holds `dict2`'s value, merged recursively when both sides hold dicts; every other key keeps `dict1`'s value |
| CommonUtils.KeysMerge | src/python_template/utils/common_utils.py:122-138 | the keys are `dict1`'s keys in order followed by `dict2`'s new keys: the union |
| CommonUtils.WfMergeFrom | src/python_template/utils/common_utils.py:122-138 | the merge of well-formed dicts holds each key once |
| CommonUtils.DeepMergeDict | src/python_template/utils/common_utils.py:154-156 | `deep_merge_dict` is `merge_dicts` |
| CommonUtils.FilterDict | src/python_template/utils/common_utils.py:141-151 | an item is kept exactly when it is an item of `data` whose key is listed |
| CommonUtils.KeysFilter | src/python_template/utils/common_utils.py:141-151 | the kept keys are the listed keys of `data`, in `data`'s order |
| CommonUtils.LookupFilter | src/python_template/utils/common_utils.py:141-151 | a listed key keeps its value, an unlisted key is absent |
| CommonUtils.GetPath | src/python_template/utils/common_utils.py:159-168 | an empty path gives the starting value (the defaults on the other paths are stated by `Config.PresentGet`) |
| CommonUtils.SafeSet | src/python_template/utils/common_utils.py:171-185 | a failed `safe_set` leaves the dict unchanged |
| CommonUtils.SetPathThenGet | src/python_template/utils/common_utils.py:171-185 | the walk succeeds exactly when every existing intermediate is a dict and every missing one may be created; after success `safe_get` on the same keys finds the value |
| CommonUtils.EmptyPathOpen | src/python_template/utils/common_utils.py:177-180 | in an empty dict with `create` on, every path can be set |
| CommonUtils.SafeSetThenGet | src/python_template/utils/common_utils.py:159-185 | on an open path `safe_set(..., create=True)` returns true and `safe_get` then returns the value |
| CommonUtils.RemoveNoneValues | src/python_template/utils/common_utils.py:188-198 | no value of the result is `None`, and the kept keys are those of `data` whose value is not `None`, in order |
| CommonUtils.LookupRemoveNone | src/python_template/utils/common_utils.py:188-198 | a kept key holds its original value, or with `recursive` set a nested dict with its own `None`s removed; a key whose value is `None` is absent |
| CommonUtils.LookupRemoveNoneFrom | src/python_template/utils/common_utils.py:188-198 | the same, for the items from position `i` on |
| CommonUtils.RemoveNoneDeep | src/python_template/utils/common_utils.py:188-198 | with `recursive` set, no `None` remains at any depth |
| CommonUtils.RemoveEmptyValues | src/python_template/utils/common_utils.py:201-213 | no value of the result is `None`, `""`, `[]` or `{}` (which keys survive, and with what value: `KeysRemoveEmpty`, `LookupRemoveEmpty`) |
| CommonUtils.RemoveEmptyFrom | src/python_template/utils/common_utils.py:201-213 | no kept value is empty and every kept key is a key of `data` |
| CommonUtils.RemoveEmptyDeep | src/python_template/utils/common_utils.py:201-213 | with `recursive` set, no empty value remains at any depth; nested dicts that become empty are dropped |
| CommonUtils.KeysRemoveEmpty | src/python_template/utils/common_utils.py:201-213 | the kept keys are exactly the keys of `data` whose value is not empty and, with `recursive` set, is not a dict that becomes empty once cleaned; they keep their order |
| CommonUtils.KeysRemoveEmptyFrom | src/python_template/utils/common_utils.py:201-213 | the same, for the items from position `i` on |
| CommonUtils.LookupRemoveEmpty | src/python_template/utils/common_utils.py:201-213 | a kept key holds its original value, or with `recursive` set a nested dict cleaned the same way; a key that is not kept is absent |
| CommonUtils.LookupRemoveEmptyFrom | src/python_template/utils/common_utils.py:201-213 | the same, for the items from position `i` on |
| CommonUtils.BatchProcess | src/python_template/utils/common_utils.py:221-235 | a size that is not positive raises `ValueError`; success gives one result per chunk in order, result `i` being what `process_func` returns for chunk `i`; a failure is the error of the first failing chunk |
| CommonUtils.ProcessEach | src/python_template/utils/common_utils.py:232-235 | success gives one result per batch in order; a failure is the error of the first batch that fails |
| CommonUtils.Clamp | src/python_template/utils/common_utils.py:332-334 | within bounds the value is kept, below it gives the minimum, above it the maximum; with crossed bounds it gives the minimum |
| CommonUtils.ValidateEmail | src/python_template/utils/common_utils.py:337-342 | true exactly when the text is a run of local-part characters, `@`, a domain and a final dot with two or more ASCII letters, one trailing newline allowed |
| CommonUtils.IsEmailShape | src/python_template/utils/common_utils.py:337-342 | the scan with the first `@` and the last dot decides whether some split matches |
| CommonUtils.ShapeAtUnique | src/python_template/utils/common_utils.py:337-342 | a matching split has its `@` at the first `@` and its dot at the last dot |
| LegacyUtils.ChunkList | src/python_template/utils.py:258-279 | the eager loop gives exactly the result of the generator in `utils/common_utils.py` |
| LegacyUtils.Flatten | src/python_template/utils.py:282-305 | no value of the result is a dict |
| LegacyUtils.FlattenAgrees | src/python_template/utils.py:282-305 | on dicts with distinct keys free of the separator's first character, the running-dict version gives the items of `utils/common_utils.py`'s, in order |
| LegacyUtils.FlattenFromKeyed | src/python_template/utils.py:295-304 | the running dict after entry `i` is the one before updated with the joined leaf paths |
| LegacyUtils.InsertPath | src/python_template/utils.py:320-331 | the only error of one step is `TypeError` |
| LegacyUtils.Unflatten | src/python_template/utils.py:308-333 | with an empty separator it fails exactly when there is a key to split |
| LegacyUtils.InsertPathAgrees | src/python_template/utils.py:320-331 | the walk that moves a reference down the dict succeeds exactly when the `setdefault` walk does, and builds the same dict |
| LegacyUtils.UnflattenAgrees | src/python_template/utils.py:308-333 | `unflatten_dict` agrees with the one of `utils/common_utils.py` on success and failure |
| LegacyUtils.FlattenRoundTrip | src/python_template/utils.py:282-333 | the `unflatten_dict(flatten_dict(d))` round trip under the same conditions as in `utils/common_utils.py` |
| LegacyUtils.MergeDicts | src/python_template/utils.py:336-351 | the loop gives `MergeAll`: each argument that is a dict applied with `update`, the others skipped |
| LegacyUtils.LookupMergeAll | src/python_template/utils.py:336-351 | each key takes its value from the last dict argument holding it; a key no argument holds is absent |
| LegacyUtils.Exclude | src/python_template/utils.py:372-373 | an item is kept exactly when its key is not excluded |
| LegacyUtils.LookupFilter | src/python_template/utils.py:354-375 | `allowed_keys` wins over `excluded_keys`; excluded keys are removed exactly; with neither, every key keeps its value |
| Core.SetupDefaults | src/python_template/core.py:50-63 | the configuration followed by the defaults it lacks, in default order |
| Core.LookupWithDefaults | src/python_template/core.py:50-63 | a configured key keeps its value, an unconfigured default key gets its default |
| Core.ConfigComplete | src/python_template/core.py:50-63 | afterwards all four keys are present, and each supplied value is kept |
| Core.Sign | src/python_template/core.py:76-89 | comparing with 0 succeeds exactly for numbers (`bool` included) |
| Core.Check | src/python_template/core.py:65-91 | the checks succeed exactly when the four values are acceptable; a failure is `ValueError` |
| Core.ValidateConfig | src/python_template/core.py:65-91 | `_validate_config` succeeds exactly when the configuration is acceptable; a failure is `ValueError` |
| Core.NewTemplateCore | src/python_template/core.py:23-48 | construction fails with `ValueError` exactly when the defaulted configuration is not acceptable; otherwise a fresh, initialized instance with no data and the defaulted configuration |
| Core.TemplateCore.constructor | src/python_template/core.py:23-48 | a fresh instance is initialized, with no data and the given configuration |
| Core.TemplateCore.Status | src/python_template/core.py:98-106 | reports the data keys, the flag and the configuration |
| Core.TemplateCore.SetData | src/python_template/core.py:108-119 | `RuntimeError` and no change when not initialized; otherwise the key maps to the value, the other keys unchanged |
| Core.TemplateCore.GetData | src/python_template/core.py:121-136 | `RuntimeError` exactly when not initialized; otherwise the stored value or the default |
| Core.TemplateCore.RemoveData | src/python_template/core.py:138-156 | `RuntimeError` and no change when not initialized; otherwise true exactly when the key was present, the key is gone, the other keys keep their order, and an absent key leaves the data as it was |
| Core.TemplateCore.ClearData | src/python_template/core.py:158-165 | `RuntimeError` and no change when not initialized; otherwise the store is empty and `status` lists no key |
| Core.ProcessItem | src/python_template/core.py:186-199 | a string becomes its stripped upper case; an integer is doubled and a boolean counts as 0 or 1 doubled; a float is its doubled text; any other item becomes the string its rendering gives, and fails exactly when the rendering fails, with its error |
| Core.ProcessWord | src/python_template/core.py:191-192 | a word with no surrounding whitespace becomes its upper case |
| Core.TemplateCore.ProcessItems | src/python_template/core.py:167-209 | as written: `RuntimeError` when not initialized, `TypeError` for a non-list, otherwise the loop whose `except` clause renders the failing item again and so raises its error in either mode: the debug-mode result whatever the flag |
| Core.AsWrittenIsDebug | src/python_template/core.py:188-206 | as written, the loop's outcome is the debug-mode outcome of the intended loop for every list |
| Core.HandlerReraises | src/python_template/core.py:202 | as written, a failing middle item among three raises its error outside debug mode, where the intended loop succeeds |
| Core.TemplateCore.ProcessItemsSkipping | src/python_template/core.py:167-209 | as intended (see Findings): the same guards, then the loop that skips a failing item, or re-raises it in debug mode |
| Core.ProcessSkips | src/python_template/core.py:201-206 | the intended loop, outside debug mode: nothing is raised and the output is what each item that processes became, in the items' order, the failing items skipped |
| Core.SkipMiddle | tests/test_core.py:172-186 | the intended loop, outside debug mode: of three items whose middle one fails, the output holds what the outer two became, in order |
| Core.ProcessDebug | src/python_template/core.py:201-206 | in debug mode the call fails exactly when some item fails, and then with the error of the first failing item |
| Core.DebugFrom | src/python_template/core.py:188-206 | in debug mode the loop from any position fails with the error of the first item from there on that fails |
| Core.ProcessInOrder | src/python_template/core.py:184-199 | with no failures, output `k` is what item `k` became, in either mode |
| Core.Failures | src/python_template/core.py:201-206 | at most one failure per item |
| Core.NotNone | src/python_template/core.py:269 | at most one counted item per item |
| Core.TotalsAppend | src/python_template/core.py:250-270 | the integer sum, the float terms and the not-`None` count of a concatenation add up |
| Core.BatchesBounds | src/python_template/core.py:251-271 | the batch count is `ceil(n / batch_size)` |
| Core.RunBatches | src/python_template/core.py:248-271 | batch by batch, the totals equal those over all the data for a positive size; a negative size runs no batch |
| Core.TemplateCore.BatchOperation | src/python_template/core.py:211-287 | `RuntimeError` when not initialized, `ValueError` for an unknown operation; `sum` and `validate` fail exactly for a batch size of 0; `count` reports `n` and one batch; `sum` and `validate` report `ceil(n / size)` batches; for a positive size, the sum of the numbers, and the count of items that are not `None` as valid with the rest invalid; for a negative size `range` is empty: no batch, a sum of 0, and 0 valid with all `n` invalid |
| Config.CopyValue | src/python_template/config.py:189-199 | a copied value equals its source |
| Config.DeepCopyDict | src/python_template/config.py:189-199 | `_deep_copy_dict` returns a structure equal to its source |
| Config.DeepMergeDict | src/python_template/config.py:201-213 | `_deep_merge_dict` is `merge_dicts` of `utils/common_utils.py`, so `CommonUtils.LookupMerge` and `CommonUtils.KeysMerge` give its laws |
| Config.ListOrString | src/python_template/config.py:177-183 | a value with a comma becomes the stripped parts of its split, one per part, otherwise it stays a string |
| Config.ConvertEnvValue | src/python_template/config.py:161-183 | boolean words, in any case, come first; otherwise a dotted text is a float exactly when Python's `float` accepts it, and a dot-free text an integer exactly when `int` accepts it; every other text is split at commas into a list, or kept as the string; never `None` or a dict |
| Config.ConvertInt | src/python_template/config.py:161-175 | `str(i)` converts back to `i` except for 0 and 1, which read as booleans |
| Config.NotAWord | src/python_template/config.py:164-167 | only `str(0)` and `str(1)` are boolean words |
| Config.EnvEntry | src/python_template/config.py:143-155 | a variable without the prefix changes nothing; the only error is `TypeError` |
| Config.EnvConfig | src/python_template/config.py:133-159 | the only error of the environment loop is `TypeError` |
| Config.EnvEntryThenGet | src/python_template/config.py:143-155 | a prefixed variable is stored exactly when every value on its `_`-split path is a dict, and then its converted value is found there |
| Config.PresentGet | src/python_template/config.py:215-236 | on a present path `get` does not depend on the default; on a missing one it returns the default |
| Config.ConfigManager.constructor | src/python_template/config.py:28-45 | the manager holds the given configuration |
| Config.ConfigManager.Get | src/python_template/config.py:215-236 | the nested value along the dot-split key, or the default when a segment is missing or a value on the way is not a dict |
| Config.ConfigManager.Set | src/python_template/config.py:238-257 | succeeds exactly when every value on the way is a dict or missing; then `get` finds the value; a failure is `TypeError` and changes nothing |
| Config.ConfigManager.Has | src/python_template/config.py:259-268 | as written, true for every key |
| Config.MissingKeyAbsent | src/python_template/config.py:259-268 | the default configuration has no key `missing`, for which `has` is nevertheless true |
| Config.ConfigManager.Contains | src/python_template/config.py:259-268 | false means `get` returns any default it is given; true means the result does not depend on the default |
| Config.ConfigManager.GetSection | src/python_template/config.py:270-284 | the dict found at the section, or `{}` for a missing section or a value that is not a dict |
| Config.ConfigManager.Update | src/python_template/config.py:286-293 | the configuration becomes its deep merge with the argument |
| Config.ConfigManager.ResetToDefaults | src/python_template/config.py:295-298 | the configuration equals the defaults |
| Config.ConfigManager.ValidateRequired | src/python_template/config.py:300-318 | as written, never raises |
| Config.ConfigManager.RequireKeys | src/python_template/config.py:300-318 | with the intended `has`: `ValueError` exactly when some required key is missing |
| Config.ConfigManager.ToDict | src/python_template/config.py:320-326 | a copy equal to the configuration |
| Config.NewConfigManager | src/python_template/config.py:28-45 | the defaults, then the environment's entries deep-merged over them when there are any; `TypeError` exactly when the environment loop fails |
| Decorators.Retry | src/python_template/utils/decorator_utils.py:147-177 | with `max_retries >= 0`, between 1 and `max_retries + 1` calls; the result is the last call's outcome; every earlier call raised a caught exception; an uncaught exception or a return before the last attempt stops the loop; one sleep after each failure but the last, the `j`-th lasting `delay * backoff^j`; no call and the wrapper's own error when `max_retries < 0` |
| Decorators.BackoffPow | src/python_template/utils/decorator_utils.py:168-171 | multiplying the delay by `backoff` after each sleep gives `delay * backoff^n` |
| Decorators.Catch | src/python_template/utils/decorator_utils.py:180-196 | a return passes through; a caught exception becomes `default_return` unless `reraise` is set; anything else is re-raised unchanged |
| Decorators.CatchReraise | src/python_template/utils/decorator_utils.py:188-193 | with `reraise` on, the wrapper only observes |
| Decorators.Singleton.constructor | src/python_template/utils/decorator_utils.py:352 | no instance yet |
| Decorators.Singleton.Call | src/python_template/utils/decorator_utils.py:346-360 | the first call constructs with its arguments; every call returns that one instance and later calls construct nothing, whatever their arguments |
| DateUtils.WeekendDays | src/python_template/utils/date_utils.py:182-193 | of the seven weekdays exactly 5 and 6 are weekend days |
| DateUtils.Part | src/python_template/utils/date_utils.py:261 | the unit is singular for a count of 1 and plural otherwise |
| DateUtils.HumanizeTimedelta | src/python_template/utils/date_utils.py:228-267 | the loop gives "0 seconds" for 0 and otherwise the parts of the decomposition joined by ", " |
| DateUtils.DecomposeShape | src/python_template/utils/date_utils.py:249-265 | units appear largest first, each at most once, with a count of at least 1, and at most `max(precision, 1)` of them |
| DateUtils.NegativeIsEmpty | src/python_template/utils/date_utils.py:241-267 | a negative total meets no unit and gives the empty string |
| DateUtils.DecomposeWeight | src/python_template/utils/date_utils.py:256-265 | the counts times the unit sizes never exceed the total, and equal it when `precision` does not cut the loop short |
| DateUtils.HumanizeComplete | src/python_template/utils/date_utils.py:256-265 | with a precision of at least four the parts spell out the whole duration |
| FileUtils.ReplaceIllegal | src/python_template/utils/file_utils.py:351 | with a legal replacement no illegal character is left; a legal name is unchanged; every character comes from the name or the replacement |
| FileUtils.RemoveControl | src/python_template/utils/file_utils.py:354 | no control character is left, every kept character comes from the input, and input without control characters is unchanged |
| FileUtils.RFindDot | src/python_template/utils/file_utils.py:357-358 | the position of the last dot, or -1 when there is none |
| FileUtils.SliceTo | src/python_template/utils/file_utils.py:359-360 | `s[:n]` is a prefix of `s` of the length Python gives, counting from the end for a negative `n` |
| FileUtils.StemSuffix | src/python_template/utils/file_utils.py:357-358 | the stem and the suffix make up the name |
| FileUtils.SanitizeFilename | src/python_template/utils/file_utils.py:339-362 | no control character and no surrounding whitespace in the result |
| FileUtils.SanitizeClean | src/python_template/utils/file_utils.py:339-362 | with a legal replacement no illegal character is left |
| FileUtils.TruncateWithin | src/python_template/utils/file_utils.py:356-360 | truncation keeps only characters it was given |
| FileUtils.TruncateLength | src/python_template/utils/file_utils.py:356-360 | a long name without a separator is cut to exactly 255 characters ending with its suffix, when the suffix fits |
| FileUtils.SanitizeUnchanged | src/python_template/utils/file_utils.py:339-362 | a name of at most 255 characters with no illegal or control character and no surrounding whitespace is returned unchanged |
| JsonUtils.MissingKeys | src/python_template/utils/json_utils.py:211 | exactly the required keys absent from `data` |
| JsonUtils.ValidateJsonSchema | src/python_template/utils/json_utils.py:200-223 | true exactly when every required key is a key of `data`; true for no required keys |
| JsonUtils.SchemaKeySet | src/python_template/utils/json_utils.py:211-218 | neither order nor repetition of the required keys matters |
| JsonUtils.SchemaMissingKey | src/python_template/utils/json_utils.py:211-215 | one missing key is enough to fail |
| JsonUtils.SchemaMonotone | src/python_template/utils/json_utils.py:211-218 | requiring more keys never turns a failure into a success |
| Models.NewPage | src/python_template/models/examples.py:95-115 | construction succeeds exactly when `total >= 0`, `page >= 1` and `1 <= page_size <= 100` |
| Models.TotalPages | src/python_template/models/examples.py:117-123 | `ceil(total / page_size)`: enough pages for the total and no more, 0 for a total of 0 |
| Models.NextMeansMore | src/python_template/models/examples.py:125-131 | there is a next page exactly when items remain after the current page |
| Models.HasPrev | src/python_template/models/examples.py:133-139 | true exactly when the page is not the first |
| Models.UsernameAlphanumeric | src/python_template/models/examples.py:56-65 | an accepted username is returned as it is; a rejection is `ValueError` |
| Models.ValidateUsername | src/python_template/models/examples.py:37-65 | accepted exactly when it has 3 to 50 word characters, at least one a letter or digit |
| Models.DeletedAlnum | src/python_template/models/examples.py:56-65 | after deleting the underscores (or the hyphens and underscores) from a word, what is left is alphanumeric exactly when a letter or digit was there |
| Models.NewUser | src/python_template/models/examples.py:18-65 | a user is built exactly when `id >= 1`, the username is accepted, the email matches and the full name has at most 100 characters |
| Models.ValidateAppNameChars | src/python_template/models/examples.py:189-200 | an accepted name is returned as it is |
| Models.ValidateAppName | src/python_template/models/examples.py:162-200 | accepted exactly when it has 1 to 100 letters, digits, `-` and `_`, at least one a letter or digit |
| Models.AppNameStray | src/python_template/models/examples.py:189-200 | any other character makes the name fail |
| Models.NewConfigModel | src/python_template/models/examples.py:142-200 | built exactly when the name is accepted, `max_connections` is in 1..100 and the timeout check, a parameter, passes; the model holds the given fields, `metadata` included |
| Settings.ValidateEnvironment | src/python_template/utils/setting.py:75-82 | accepted exactly for the three names, as written, and returned unchanged; otherwise `ValueError` |
| Settings.ValidateLogLevel | src/python_template/utils/setting.py:84-92 | accepted exactly when the upper-cased name is a level, and then that upper-cased name is returned |
| Settings.LogLevelIdempotent | src/python_template/utils/setting.py:89-92 | validating a validated level gives it back |
| Settings.LogLevelCase | src/python_template/utils/setting.py:84-92 | the case of the name does not matter |
| Settings.GetLogFilePath | src/python_template/utils/setting.py:114-123 | an absolute `log_file` as it is; a relative one is the root, a separator and the file |
| Settings.LogFileAbsolute | src/python_template/utils/setting.py:114-123 | with an absolute project root the path is always absolute |
| ReleaseNotes.NormalizeVersionFromTag | scripts/generate_release_notes.py:82-84 | exactly one leading `v` is dropped; a tag without one is unchanged |
| ReleaseNotes.NormalizeTagged | scripts/generate_release_notes.py:82-84 | `v` followed by a version normalises to the version |
| ReleaseNotes.SectionBounds | scripts/generate_release_notes.py:89-97 | none exactly when no line opens with the version's heading; otherwise the section holds no line opening a new heading and ends at one or at the end of the text |
| ReleaseNotes.ExtractChangelogSection | scripts/generate_release_notes.py:87-99 | `None` without a heading; a result is never empty and is already stripped |
| ReleaseNotes.ExtractStopsAtHeading | scripts/generate_release_notes.py:95-98 | no line inside an extracted section opens a version heading |
| ReleaseNotes.ExtractFirstSection | scripts/generate_release_notes.py:87-99 | a changelog opening with the version's heading, a stripped body and then nothing or the next heading, yields exactly that body |
| ReleaseNotes.SanitizeModelSummary | scripts/generate_release_notes.py:146-152 | the result is stripped and no longer than the input |
| ReleaseNotes.SanitizeUnfenced | scripts/generate_release_notes.py:146-152 | an unfenced stripped summary only loses a leading "## Highlights" heading |
| ReleaseNotes.SanitizeFenced | scripts/generate_release_notes.py:146-152 | a summary fenced with a language tag reads the same as the bare summary |
| ReleaseNotes.SanitizeHeading | scripts/generate_release_notes.py:151 | a leading "## Highlights" heading, in any case, is dropped |
| ReleaseNotes.ReleaseRange | scripts/generate_release_notes.py:236 | `prev..tag` when there is a previous tag, the tag alone otherwise |
| ReleaseNotes.BuildFallbackHighlights | scripts/generate_release_notes.py:234-241 | three lines, the second naming the release scope |
| ReleaseNotes.ScopeLine | scripts/generate_release_notes.py:239 | "Release scope: ", the range and a final dot |
| ReleaseNotes.Highlights | scripts/generate_release_notes.py:251-262 | never empty |
| ReleaseNotes.HighlightsFromSummary | scripts/generate_release_notes.py:252-263 | with a summary, the highlights are the summary's non-blank lines, in order and normalized to bullets; when every line is blank, the one placeholder bullet |
| ReleaseNotes.BulletsOf | scripts/generate_release_notes.py:257-263 | normalizing keeps the non-blank lines, in order; only when none is left is the placeholder used |
| ReleaseNotes.NonBlankMembers | scripts/generate_release_notes.py:257 | the kept lines are exactly the lines that are not blank |
| ReleaseNotes.NonBlankAppend | scripts/generate_release_notes.py:257 | dropping blank lines from two joined lists is dropping them from each, in order |
| ReleaseNotes.HighlightsBulleted | scripts/generate_release_notes.py:256-262 | every highlight line begins with `- ` after its leading whitespace |
| ReleaseNotes.FallbackWhenNoSummary | scripts/generate_release_notes.py:251-255 | without a summary the highlights are the three fallback lines as bullets |
| ReleaseNotes.SummaryIgnoresTags | scripts/generate_release_notes.py:251-255 | with a summary the highlights do not depend on the tags |
| ReleaseNotes.CommitLines | scripts/generate_release_notes.py:264-267 | the formatted commits, or the placeholder bullet when there are none |
| ReleaseNotes.CommitLinesBulleted | scripts/generate_release_notes.py:264-267 | every commit line begins with `- ` after its leading whitespace |
| ReleaseNotes.Assemble | scripts/generate_release_notes.py:272-288 | the title, the tag lines, the highlights, the changelog extract and the commits sit in that order at fixed places, ending with an empty line |
| ReleaseNotes.ComposeReleaseNotes | scripts/generate_release_notes.py:244-289 | the notes open with `# Release <tag>`; every section line appears whole in the notes at its place in the newline join, in order |
| ReleaseNotes.NotesContents | scripts/generate_release_notes.py:272-289 | the notes hold the three headings, the changelog extract or its placeholder, every highlight and every commit line |
| ReleaseNotes.JoinAt | scripts/generate_release_notes.py:289 | in a join, part `k` sits whole after the earlier parts and separators |
| UpdateVersion.VersionAccepted | scripts/update_version.py:71-84 | every `MAJOR.MINOR.PATCH` of digit runs is accepted, with or without one final newline |
| UpdateVersion.VersionParts | scripts/update_version.py:71-84 | every accepted version is three digit runs joined by dots, with at most a final newline |
| UpdateVersion.VersionCharacters | scripts/update_version.py:71-84 | an accepted version holds no quote, and a newline only last |
| UpdateVersion.Search | scripts/update_version.py:133 | a found position matches and none before it does |
| UpdateVersion.FirstGroup | scripts/update_version.py:133-139 | a group exists exactly when the search finds a match; it is not empty and holds no stop character |
| UpdateVersion.NoMatchReason | scripts/update_version.py:54-64 | a line that opens with the lead fails only for an empty group or an unclosed quote |
| UpdateVersion.UpdateFile | scripts/update_version.py:105-151 | a missing file or pattern gives SKIP for an optional file and ERROR for a required one; OK exactly when there is a match and the substitution changes the text, reporting the first match's old version |
| UpdateVersion.AlreadyCurrentSkips | scripts/update_version.py:143-146 | a file whose only match already carries the version is skipped |
| UpdateVersion.ReadBack | scripts/update_version.py:143 | after the substitution the first match carries the new version |
| UpdateVersion.CurrentVersion | scripts/update_version.py:86-104 | found exactly when `pyproject.toml` exists and holds a version line |
| UpdateVersion.UpdateAllRun | scripts/update_version.py:153-208 | a run never creates or deletes a file |
| UpdateVersion.UpdateAll | scripts/update_version.py:153-208 | the loop gives the run's messages and files; an invalid version gives the single error message and no write; a dry run writes nothing |
| UpdateVersion.RunAllTargets | scripts/update_version.py:190-206 | the per-target loop gives the specified messages and files, and a dry run writes nothing |
| UpdateVersion.DryRunKeepsFiles | scripts/update_version.py:194-202 | a dry run over the targets writes nothing |
| UpdateVersion.RunTargetsEffect | scripts/update_version.py:190-206 | one message per target in order, each the target's result on the files as given; each target file ends as that target alone leaves it, and no other file changes |
| UpdateVersion.OneMessagePerTarget | scripts/update_version.py:165-208 | after the header, exactly one message per target, in target order |
| UpdateVersion.DryRunWritesNothing | scripts/update_version.py:185-202 | a dry-run `update_all` leaves every file as it was |
| UpdateVersion.UpdatedReadsBack | scripts/update_version.py:193-200 | after a real run, a target that reported OK reads back the new version |
| UpdateVersion.CurrentAfterUpdate | scripts/update_version.py:193-200 | after a real run that updated `pyproject.toml`, the current version read by `get_current_version` is the new one |
| RenamePackage.ValidPackageName | scripts/rename_package.py:40-60 | true exactly for a non-empty identifier that is not a keyword; such a name has no leading digit, hyphen, dot or space |
| RenamePackage.ToProjectName | scripts/rename_package.py:63-68 | every `_` becomes `-`, the length is kept and no `_` is left |
| RenamePackage.ProjectNameRoundTrip | scripts/rename_package.py:63-68 | turning the hyphens back into underscores recovers a valid package name |
| RenamePackage.OldNamesAgree | scripts/rename_package.py:31-32 | the shipped names are a valid package name and its project name |
| RenamePackage.UpdateFileContent | scripts/rename_package.py:93-115 | reports true exactly when the file is text whose renamed content differs, and then stores it; otherwise the files are unchanged |
| RenamePackage.RenameAbsent | scripts/rename_package.py:93-109 | text holding neither old name is unchanged |
| RenamePackage.RenameToSelf | scripts/rename_package.py:93-109 | renaming to the same names changes nothing |
| RenamePackage.UnpickedNotRewritten | scripts/rename_package.py:200-204 | a file without the old names is never reported as rewritten |
| RenamePackage.FilesToUpdate | scripts/rename_package.py:118-139 | exactly the entries outside excluded directories that are files with a listed suffix or a special name |
| RenamePackage.GetFilesToUpdate | scripts/rename_package.py:118-139 | the walk loop gives those entries in walk order |
| RenamePackage.HiddenNameHasNoSuffix | scripts/rename_package.py:118-139 | a file named only by a suffix, such as `.py`, is not picked by its suffix |

## Left out

- Floating point: the float branch of `_convert_env_value` is a parameter, `validity_ratio` of `batch_operation` is not computed, float terms of `sum` are kept as a list of their texts, `clamp` is over integers, `ConfigModel.timeout` is checked by a parameter, and retry delays are natural numbers.
- Character classes are ASCII: `str.isalnum`, `str.isidentifier`, `\d`, and the case folding of `re.IGNORECASE` and `str.upper`/`lower` on non-ASCII letters are not modelled.
- Concurrency: a `Context` is one shared dict, and nothing isolates concurrent tasks from each other's writes; the `threading.Lock` of `context.py` is a no-op, and `async_batch_process`, `async_batch_process_concurrent`, the async retry, catch and log wrappers and `async_context_scope` are not modelled; their logic is the sync versions'.
- Clock, logging, randomness and I/O: `timing`, `log_calls` and `deprecated` only log and measure around the call and return its result unchanged, so they are not modelled; neither are `ContextTimer`, `generate_uuid`, the datetime wrappers, the logger calls, file and JSON reading and writing, git and HTTP calls, or `main` of the scripts.
- `ConfigManager._load_from_file` is not modelled: configuration files are never read. The environment is a list of `(name, value)` pairs.
- Paths are strings: `Path` joins are `/` concatenation and `Path.name`, `stem` and `suffix` are computed on POSIX strings.
- `re.sub` replacement escapes: the version and package names substituted in the scripts, and the `replacement` of `sanitize_filename`, are taken literally. Python reads a replacement as a template, so one holding a backslash behaves differently: `"\\"` raises `re.error`, even when there is nothing to replace, and `"\\n"` inserts a newline. A replacement without a backslash is modelled exactly.
- FileUtils.ReplaceIllegal: the replacement is inserted literally; for a replacement holding a backslash, Python's escape expansion and its `re.error` are not modelled (see the line above).
- FileUtils.SanitizeUnchanged: it is stated for every replacement, but for a replacement that is not a valid template Python raises `re.error` instead of returning the name; only backslash-free replacements are certain to match the source.
- Aliasing: the model copies values. `TemplateCore.__init__` keeps the caller's dict (`config or {}`, core.py line 31), and `_setup_defaults` writes the defaults into that dict even when validation then raises (core.py lines 60-63). `ConfigManager.get_section` returns the live nested dict (config.py lines 280-284). Writes that reach the caller through these shared objects are not captured.
- `rename_directory` and the directory walk of `rename_package.py` are not modelled; the walk is the list of entries it yields.
- The `utils.py` copies of `validate_email` and `sanitize_filename` are the `utils/common_utils.py` and `utils/file_utils.py` functions with `"_"` as replacement, so they are modelled once.
- The `utils.py` `retry_decorator` (`utils.py` lines 46-92) runs the same loop as the `utils/decorator_utils.py` retry, so `Decorators.Retry` models both; its `noAttempt` argument is the error raised when `max_retries < 0` (`RuntimeError` there, the `TypeError` of `raise None` in `utils.py`).
- UpdateVersion.UpdateFile: a read error, or a target that is a directory, is not modelled (the `except Exception` branch); files are strings.
- UpdateVersion.RunAllTargets: the loop of `update_all` is its own method, and each branch's message is appended after the branch.
- LegacyUtils.ChunkList: the loop variable steps to the end of each slice rather than by `range`; the slices are the same.
- Config.ConfigManager.Has: it does not model `object()` identity; it states the result, true for every key.
- Models and Settings: Pydantic's field machinery, `get_settings` and `reload_settings` are not modelled; only the validator bodies and the field bounds are.

## Findings

| source | as written | input that shows it | evidently intended | confidence | as-written member | corrected member |
|---|---|---|---|---|---|---|
| src/python_template/config.py:268 | `has(key)` returns `self.get(key, object()) is not object()`; the two sentinels are different objects, so it is true for every key, and `validate_required` never raises | `has("missing")` on the default configuration | `has` true exactly when `get` finds the key, and `validate_required` raising `ValueError` for a missing key | high, not executed | Config.ConfigManager.Has, Config.MissingKeyAbsent | Config.ConfigManager.Contains, Config.ConfigManager.RequireKeys |
| src/python_template/core.py:202 | the `except` clause of `process_items` logs `f"Failed to process item {i} ({item}): {e}"`; formatting `{item}` calls `str(item)` again, which raises the same error before `debug` is read, so a failing item is never skipped | `process_items(["good", ErrorItem(), "also_good"])` with `debug` off, where `ErrorItem.__str__` raises `ValueError`: the call raises `ValueError` | outside debug mode the failing item is logged and skipped, giving `["GOOD", "ALSO_GOOD"]`, as tests/test_core.py lines 172-186 expect | high, not executed | Core.TemplateCore.ProcessItems, Core.HandlerReraises | Core.TemplateCore.ProcessItemsSkipping, Core.ProcessSkips |
