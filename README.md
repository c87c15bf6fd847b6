# thinktwiceutils: dependency registry and simple results, in Dafny

This project models the core of the `thinktwiceutils` Python package.

**The dependency-substitution registry.** A `Dependency` wraps a callable. It registers the callable in a process-wide `registry` dict, under a key derived from where the callable was defined. Calls go through the instance. Callers can swap the implementation inside a `with dep.override(g):` block. The repository has two variants of this class:
- `src/ttutils/dependencies/dependencies.py` also has `perm_override` and `restore`, and always restores the callable captured at construction.
- `src/thinktwiceutils/dependencies.py` restores from a single per-instance backup field, `_original_dep`.

**`SR` and `SE`.** `SR` is a success/error result and `SE` is an error record (`src/thinktwiceutils/simplereturns/__init__.py`).

Files:

- `identity.dfy` (`Identity`) covers key derivation. A callable is its defining `Site` (module, qualified name, first line and file) plus what it computes (`run`). The key is a digest of the preimage string `"{module}.{qualname}:{line}:{file}"`. The line number is rendered in decimal, and a round-trip lemma shows the digits can be read back. `KeyOf` is the value `_get_fn_hash` returns: `digest` applied to that preimage. Its properties are stated about `Preimage`, and about the key that `Make` and `New` store.
- `registry.dfy` (`DependencyRegistry`) holds the shared `Registry` class. It has a `var m: map<Key, Callable>` and a `const digest`, which stands for SHA-256. It also defines the error values: `AlreadyExists` and `NotFound` model the two `ValueError`s, and `KeyMissing` models a `KeyError`.
- `traces.dfy` (`Traces`) defines `Run`, which applies a sequence of operations one after another. `RunConcat` proves that running two sequences in turn is the same as running their concatenation.
- `tt_dependencies.dfy` (`TtDependencies`) and `thinktwice_dependencies.dfy` (`ThinkTwiceDependencies`) model the two variants, in two parts each:
  - a pure step function `Step` over the registry and, for `thinktwiceutils`, the backup field, with lemmas about arbitrary runs of steps;
  - a `Dependency` class whose methods update `reg.m` in place, in which the `PermOverride`, `Restore`, `OverrideEnter` and `OverrideExit` methods equate the new state with `Step` of the old one. `New` and `Override` state the new registry directly, and `Call` changes nothing.

  `Write(k, f)` steps stand for what other code does to the shared registry meanwhile: other handles registering, overriding or restoring.
- `simple_returns.dfy` (`SimpleReturns`) models `SR` and `SE` as datatypes. `HasCode` is the truthiness test `if self.code:`: the code is present and is not the empty string. Its effect is stated by the `Display` rows. `SR.IsError` is `is_error`, the negation of `isSuccess`. What it says about built results is stated by the `Success`, `Error` and `FilledSideAgrees` rows.

The `with` statement is modelled in two ways. `OverrideEnter` is the code before the `yield` and `OverrideExit` is the `finally`. `Override` runs both around a block, given as a function from the registry to the registry it leaves plus a flag saying whether it raised. The exit runs whether or not the block raised.

Restoration is modelled as the code is written:
- In `ttutils`, leaving a scope always writes back the construction-time callable. So after `override(a)` and then `override(b)`, leaving the inner scope puts back the original while the outer scope is still open.
- In `thinktwiceutils`, the nested entry overwrites the single backup with `a`. Both exits then leave `a`, and the value held before the outer scope is lost.

So neither variant restores nested overrides in last-in-first-out order.

## Model

| member | source | states |
|---|---|---|
| Identity.Decimal | src/ttutils/dependencies/dependencies.py:29 | the line number in the key preimage is a non-empty string of decimal digits with no leading zero, and "0" only for 0 |
| Identity.DecimalRoundTrip | src/ttutils/dependencies/dependencies.py:29 | the decimal rendering of the line number reads back to the same number |
| Identity.Preimage | src/ttutils/dependencies/dependencies.py:24-29 | the preimage is the module name, '.', the qualified name, ':', the decimal first line, ':' and the file name, and nothing else |
| Identity.PreimageNotInjective | src/thinktwiceutils/dependencies.py:21-26 | the preimage is not injective: for any strings a, b, c, module "a.b" with qualified name "c" and module "a" with qualified name "b.c", on the same line and file, are distinct sites with the same key under every hash |
| DependencyRegistry.Registry.constructor | src/ttutils/dependencies/dependencies.py:8 | the shared registry starts empty, with the given hash function |
| TtDependencies.Step | src/ttutils/dependencies/dependencies.py:31-48 | each handle operation writes exactly one entry and removes none: override entry writes g at key, exit and restore write the construction-time callable at key, perm_override writes g under g's own key, and every other entry is unchanged |
| TtDependencies.KeysNeverDisappear | src/ttutils/dependencies/dependencies.py:8-48 | no run of operations removes a key, so once a handle has registered, calling it never hits "not found" |
| TtDependencies.OverrideScope | src/ttutils/dependencies/dependencies.py:39-48 | inside override(g) the entry is g; after the scope, whatever ran inside it, the entry is the construction-time callable |
| TtDependencies.NestedOverrideNotLifo | src/ttutils/dependencies/dependencies.py:43-48 | after override(a) then override(b), leaving the inner scope resets the entry to the original while the outer scope is still open, and leaving the outer scope leaves the original |
| TtDependencies.RestoreAfterAnyRun | src/ttutils/dependencies/dependencies.py:35-37 | restore() after any run of operations sets the entry to the construction-time callable |
| TtDependencies.RestoreIdempotent | src/ttutils/dependencies/dependencies.py:35-37 | restore() twice leaves the same registry as restore() once |
| TtDependencies.Isolation | src/ttutils/dependencies/dependencies.py:33-48 | an entry that no operation in a run targets keeps its value, so handles do not see each other's overrides |
| TtDependencies.Dependency.Make | src/ttutils/dependencies/dependencies.py:11-13 | the key is derived from the callable's site and the callable is kept as the original |
| TtDependencies.Dependency.New | src/ttutils/dependencies/dependencies.py:11-17 | on an absent key it adds exactly key ↦ f and returns the handle; on a present key it fails with AlreadyExists and the registry is unchanged, so the first registration stays active |
| TtDependencies.Dependency.Call | src/ttutils/dependencies/dependencies.py:19-22 | fails with NotFound exactly when the key is absent; otherwise returns the registered callable applied to the argument |
| TtDependencies.Dependency.PermOverride | src/ttutils/dependencies/dependencies.py:31-33 | writes g under g's own key with no duplicate check, so g is found there afterwards; when the keys differ the handle's own entry, and so the value of dep(), is unchanged |
| TtDependencies.Dependency.Restore | src/ttutils/dependencies/dependencies.py:35-37 | sets the handle's entry to the construction-time callable and changes nothing else |
| TtDependencies.Dependency.OverrideEnter | src/ttutils/dependencies/dependencies.py:40-43 | installs g at the handle's key and changes nothing else |
| TtDependencies.Dependency.OverrideExit | src/ttutils/dependencies/dependencies.py:44-48 | writes the construction-time callable back at the handle's key, whatever the entry held |
| TtDependencies.Dependency.Override | src/ttutils/dependencies/dependencies.py:39-48 | the block runs with g installed; afterwards, whether or not it raised, the entry is the construction-time callable and the raise is passed on |
| TtDependencies.RegistrationScenario | tests/test_dependencies.py:8-49 | a registered callable is reached through the handle; registering it again fails with AlreadyExists and the handle still reaches it |
| TtDependencies.OverrideScenario | tests/test_dependencies.py:52-106 | calls reach f before, g between entering and leaving override(g), and f again after it; after an override whose block raised, calls reach f |
| TtDependencies.IsolationScenario | tests/test_dependencies.py:126-146 | while one handle is overridden, a handle with a different key still reaches its own callable |
| ThinkTwiceDependencies.Step | src/thinktwiceutils/dependencies.py:28-37 | override entry on a present key saves the entry in the backup and installs g; on an absent key nothing changes (KeyError); exit writes the backup back; each step writes at most one entry and removes none |
| ThinkTwiceDependencies.KeysNeverDisappear | src/thinktwiceutils/dependencies.py:8-37 | no run of operations removes a key from the registry |
| ThinkTwiceDependencies.SingleOverrideRestores | src/thinktwiceutils/dependencies.py:28-37 | for a single override(g), the entry is g inside; after exit it is the value held at entry, even if other code wrote to the registry inside |
| ThinkTwiceDependencies.NestedOverrideLosesOriginal | src/thinktwiceutils/dependencies.py:31-37 | after override(a) then override(b), both exits leave a; the value before the outer scope is not restored |
| ThinkTwiceDependencies.Isolation | src/thinktwiceutils/dependencies.py:33-37 | an entry that no operation in a run targets keeps its value |
| ThinkTwiceDependencies.Dependency.Make | src/thinktwiceutils/dependencies.py:10-11 | the key is derived from the callable's site and no backup exists yet |
| ThinkTwiceDependencies.Dependency.New | src/thinktwiceutils/dependencies.py:10-14 | on an absent key it adds exactly key ↦ f; on a present key it fails with AlreadyExists and the registry is unchanged |
| ThinkTwiceDependencies.Dependency.Call | src/thinktwiceutils/dependencies.py:16-19 | fails with NotFound exactly when the key is absent; otherwise returns the registered callable applied to the argument |
| ThinkTwiceDependencies.Dependency.OverrideEnter | src/thinktwiceutils/dependencies.py:29-33 | fails with KeyMissing and changes nothing when the key is absent; otherwise it saves the current entry in the single backup field and installs g |
| ThinkTwiceDependencies.Dependency.OverrideExit | src/thinktwiceutils/dependencies.py:34-37 | writes the backup back at the handle's key and changes nothing else |
| ThinkTwiceDependencies.Dependency.Override | src/thinktwiceutils/dependencies.py:28-37 | the block runs with g installed; afterwards, whether or not it raised, the entry is its value at entry and every other entry is what the block left, for a block that does not itself override this handle |
| ThinkTwiceDependencies.OverrideScenario | tests/test_dependencies.py:70-106 | calls reach f before, g between entering and leaving override(g), and f again after it; after an override whose block raised, calls reach f |
| ThinkTwiceDependencies.NestedOverrideScenario | src/thinktwiceutils/dependencies.py:31-37 | with nested override(a) and override(b) on one handle, calls reach a after the inner exit and still a after the outer exit |
| SimpleReturns.FilledSideAgrees | src/thinktwiceutils/simplereturns/__init__.py:18-46 | for a result built by success(v) or error(e), the error value is Some(e) exactly when is_error holds, and the value is Some(v) exactly when it does not; the empty side is None (holds in Python only for payloads other than None, see Left out) |
| SimpleReturns.Success | src/thinktwiceutils/simplereturns/__init__.py:18-21 | a success result is a success and not an error, carries the value and has no error value |
| SimpleReturns.Error | src/thinktwiceutils/simplereturns/__init__.py:23-26 | an error result is an error and not a success, carries the error value and has no value |
| SimpleReturns.SuccessErrorDistinct | src/thinktwiceutils/simplereturns/__init__.py:18-46 | a success result never equals an error result, and each gives back what it was built from |
| SimpleReturns.NewSE | src/thinktwiceutils/simplereturns/__init__.py:52-62 | message and code are stored as given; the context is the given mapping, or empty when none is given |
| SimpleReturns.Display | src/thinktwiceutils/simplereturns/__init__.py:64-68 | the display is as long as the message plus the code and three bracket and space characters when a non-empty code is present, and as long as the message otherwise |
| SimpleReturns.DisplayShowsCodeExactlyWhenPresent | src/thinktwiceutils/simplereturns/__init__.py:64-68 | the display ends with the message; it equals the bare message exactly when no non-empty code is present; otherwise it starts with "[", the code and "] " |
| SimpleReturns.DisplayExamples | tests/test_simplereturns.py:42-60 | "[E001] Test error" for code E001, the bare message without a code, and the bare message for an empty code |
| SimpleReturns.ErrorCarriesSE | tests/test_simplereturns.py:24-31 | an SE passed to SR.error comes back from error_value with its message and code intact |

## Left out

- SHA-256 (`hashlib`) is a parameter, `digest: string -> Key`, of the registry. Nothing is assumed about it, so the model does not claim that callables at distinct sites get distinct keys. The preimage is not even injective (`Identity.PreimageNotInjective`).
- Python introspection (`__module__`, `__qualname__`, `__code__.co_firstlineno`, `co_filename`) is an input record, `Site`.
- Argument passing (`*args`, `**kwds`, keyword binding) is one argument of a type parameter, and a callable is a total function `run`. Exceptions raised by the callable itself, which `__call__` passes through, are not modelled.
- The `contextmanager` generator and exception objects are left out. They are replaced by the enter/exit methods and a block summarised as the registry it leaves plus a "raised" flag. A block that itself calls `override` on the same handle is modelled only through `OverrideEnter`/`OverrideExit` sequences, not through `Override`.
- The `_override_key` field written on entering `override` (`src/ttutils/dependencies/dependencies.py:41`, `src/thinktwiceutils/dependencies.py:30`) is never read, and it is not modelled.
- `SE.__repr__` is not modelled, because it depends on Python's `repr` quoting of strings and dicts.
- Thread safety is not modelled: the code has no locking, and the model is sequential.
- The text of the `ValueError` messages is reduced to the error kind and the key: `AlreadyExists(key)`, `NotFound(key)`.
- Dependency.Make (both variants) sets the fields only. The registration check of `__init__` is in `Dependency.New`, because a Dafny constructor cannot fail. `New` first creates the instance through `Make`, then checks the key and raises or inserts, in the same order as `__init__`.
- ThinkTwiceDependencies.Dependency.OverrideExit requires a backup. The `finally` only runs after the assignment at line 31 succeeded, so an attribute error from a missing `_original_dep` cannot arise. For the same reason the pure `Step` leaves an exit without a backup as a no-op.
- SE context keys are strings. Python allows any hashable key.
- SimpleReturns.FilledSideAgrees: the biconditionals between `is_error` and a populated side hold in Python only for payloads other than None. The model keeps `value` and `errorValue` as `Option`s, so `Success(None)` has `value == Some(None)`. In Python, `SR.success(None).value` and `SR.error(None).error_value` are None, so the property cannot tell an empty side from a side holding None.
- Every callable is assumed to have a `Site`. In the source, `_get_fn_hash` raises AttributeError for a callable without `__code__`, such as a builtin, a `functools.partial` or an object with `__call__`. It raises before anything is written, in `__init__`, in `override` (`src/ttutils/dependencies/dependencies.py:41`, `src/thinktwiceutils/dependencies.py:30`) and in `perm_override` (`src/ttutils/dependencies/dependencies.py:32`). So in the source, `with dep.override(len):` raises and leaves the registry unchanged. The model's `OverrideEnter`, `PermOverride` and `New` have no such failure. Likewise, the preimage's `.encode()` (strict UTF-8) is folded into `digest`. The UnicodeEncodeError it raises for a site string that is not valid UTF-8 is not modelled. Such a string can be a lone surrogate in a `co_filename` or an assigned `__qualname__`, and a Dafny `char` cannot hold one. That error also comes before any write.
