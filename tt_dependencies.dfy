/**
 * The `Dependency` registry of the `ttutils` package: registration,
 * forwarding calls, a scoped `override`, `perm_override` and `restore`.
 * Every restoration writes back the callable captured at construction.
 */
module TtDependencies {
  import opened Wrappers
  import opened Identity
  import opened DependencyRegistry
  import opened Traces

  /** What a handle fixes at construction: its key, its original callable and the hash in use. */
  datatype Handle<!A, R> = Handle(key: Key, original: Callable<A, R>, digest: string -> Key)

  /**
   * One registry write: the handle's own operations, and `Write(k, f)` for
   * whatever other code does to the shared registry (another handle's
   * registration, override or restore). No operation removes an entry.
   */
  datatype Op<!A, R> =
    | Enter(g: Callable<A, R>)          // entering `with dep.override(g)`
    | Exit                              // its `finally`
    | Restore                           // `dep.restore()`
    | PermOverride(g: Callable<A, R>)   // `dep.perm_override(g)`
    | Write(k: Key, f: Callable<A, R>)

  /** The one key an operation writes. */
  function Target<A, R>(h: Handle<A, R>, op: Op<A, R>): (k: Key)
  {
    match op
    case Enter(_) => h.key
    case Exit => h.key
    case Restore => h.key
    case PermOverride(g) => KeyOf(h.digest, g.site)
    case Write(k, _) => k
  }

  /** The registry after one operation. */
  function Step<A, R>(h: Handle<A, R>, m: map<Key, Callable<A, R>>, op: Op<A, R>): (r: map<Key, Callable<A, R>>)
    ensures r.Keys == m.Keys + {Target(h, op)}
    ensures forall k :: k in m && k != Target(h, op) ==> r[k] == m[k]
    ensures op.Exit? || op.Restore? ==> r[h.key] == h.original
    ensures op.Enter? ==> r[h.key] == op.g
    ensures op.PermOverride? ==> r[KeyOf(h.digest, op.g.site)] == op.g
    ensures op.Write? ==> r[op.k] == op.f
  {
    match op
    case Enter(g) => m[h.key := g]
    case Exit => m[h.key := h.original]
    case Restore => m[h.key := h.original]
    case PermOverride(g) => m[KeyOf(h.digest, g.site) := g]
    case Write(k, f) => m[k := f]
  }

  function Stepper<A, R>(h: Handle<A, R>): (step: (map<Key, Callable<A, R>>, Op<A, R>) -> map<Key, Callable<A, R>>)
  {
    (m, op) => Step(h, m, op)
  }

  /** No run of operations removes a key: once registered, a handle's calls never hit "not found". */
  lemma {:induction false} KeysNeverDisappear<A, R>(h: Handle<A, R>, m: map<Key, Callable<A, R>>, ops: seq<Op<A, R>>)
    ensures m.Keys <= Run(Stepper(h), m, ops).Keys
    decreases |ops|
  {
    if ops != [] {
      KeysNeverDisappear(h, Step(h, m, ops[0]), ops[1..]);
    }
  }

  /**
   * Inside `override(g)` the entry is `g`; after the scope, whatever the block
   * did, it is the construction-time callable, not the value held on entry.
   */
  lemma OverrideScope<A, R>(h: Handle<A, R>, m: map<Key, Callable<A, R>>, g: Callable<A, R>, inner: seq<Op<A, R>>)
    ensures var r := Run(Stepper(h), m, [Enter(g)]); h.key in r && r[h.key] == g
    ensures var r := Run(Stepper(h), m, [Enter(g)] + inner + [Exit]); h.key in r && r[h.key] == h.original
  {
    var st := Stepper(h);
    assert Run(st, m, [Enter(g)]) == Run(st, Step(h, m, Enter(g)), []);
    RunConcat(st, m, [Enter(g)] + inner, [Exit]);
    var before := Run(st, m, [Enter(g)] + inner);
    assert Run(st, before, [Exit]) == Run(st, Step(h, before, Exit), []);
  }

  /**
   * Nested overrides are not last-in-first-out: leaving the inner scope puts
   * back the original while the outer one is still open.
   */
  lemma NestedOverrideNotLifo<A, R>(h: Handle<A, R>, m: map<Key, Callable<A, R>>, a: Callable<A, R>, b: Callable<A, R>)
    ensures var r := Run(Stepper(h), m, [Enter(a), Enter(b)]); h.key in r && r[h.key] == b
    ensures var r := Run(Stepper(h), m, [Enter(a), Enter(b), Exit]); h.key in r && r[h.key] == h.original
    ensures var r := Run(Stepper(h), m, [Enter(a), Enter(b), Exit, Exit]); h.key in r && r[h.key] == h.original
  {
    var st := Stepper(h);
    var m1 := Step(h, m, Enter(a));
    var m2 := Step(h, m1, Enter(b));
    var m3 := Step(h, m2, Exit);
    assert Run(st, m, [Enter(a), Enter(b)]) == Run(st, m1, [Enter(b)]) == Run(st, m2, []);
    assert Run(st, m, [Enter(a), Enter(b), Exit]) == Run(st, m1, [Enter(b), Exit])
      == Run(st, m2, [Exit]) == Run(st, m3, []);
    assert Run(st, m, [Enter(a), Enter(b), Exit, Exit]) == Run(st, m1, [Enter(b), Exit, Exit])
      == Run(st, m2, [Exit, Exit]) == Run(st, m3, [Exit]);
  }

  /** After any run of operations, `restore()` resets the entry to the original callable. */
  lemma RestoreAfterAnyRun<A, R>(h: Handle<A, R>, m: map<Key, Callable<A, R>>, ops: seq<Op<A, R>>)
    ensures var r := Run(Stepper(h), m, ops + [Restore]); h.key in r && r[h.key] == h.original
  {
    var st := Stepper(h);
    RunConcat(st, m, ops, [Restore]);
    var before := Run(st, m, ops);
    assert Run(st, before, [Restore]) == Run(st, Step(h, before, Restore), []);
  }

  /** `restore()` twice is `restore()` once. */
  lemma RestoreIdempotent<A, R>(h: Handle<A, R>, m: map<Key, Callable<A, R>>)
    ensures Run(Stepper(h), m, [Restore, Restore]) == Run(Stepper(h), m, [Restore])
  {
    var st := Stepper(h);
    var m1 := Step(h, m, Restore);
    assert Run(st, m, [Restore, Restore]) == Run(st, m1, [Restore]) == Run(st, Step(h, m1, Restore), []);
    assert Run(st, m, [Restore]) == Run(st, m1, []);
  }

  /** An entry no operation targets keeps its value: handles do not see each other's overrides. */
  lemma {:induction false} Isolation<A, R>(h: Handle<A, R>, m: map<Key, Callable<A, R>>, ops: seq<Op<A, R>>, k: Key)
    requires k in m
    requires forall i :: 0 <= i < |ops| ==> Target(h, ops[i]) != k
    ensures k in Run(Stepper(h), m, ops) && Run(Stepper(h), m, ops)[k] == m[k]
    decreases |ops|
  {
    if ops != [] {
      Isolation(h, Step(h, m, ops[0]), ops[1..], k);
    }
  }

  /** A `Dependency` instance of `ttutils`. */
  class Dependency<A, R> {
    const reg: Registry<A, R>
    const key: Key
    const original: Callable<A, R>

    function View(): (h: Handle<A, R>)
    {
      Handle(key, original, reg.digest)
    }

    /** Sets the fields `__init__` computes; `New` adds the registration check. */
    constructor Make(reg: Registry<A, R>, f: Callable<A, R>)
      ensures this.reg == reg && key == KeyOf(reg.digest, f.site) && original == f
    {
      this.reg := reg;
      key := KeyOf(reg.digest, f.site);
      original := f;
    }

    /** `Dependency(f)`: registers `f` under its key, or raises if the key is taken. */
    static method New(reg: Registry<A, R>, f: Callable<A, R>) returns (r: Result<Dependency<A, R>, DepError>)
      modifies reg
      ensures var k := KeyOf(reg.digest, f.site);
        if k in old(reg.m) then
          r == Failure(AlreadyExists(k)) && reg.m == old(reg.m)
        else
          && r.Success? && fresh(r.value)
          && r.value.reg == reg && r.value.key == k && r.value.original == f
          && reg.m == old(reg.m)[k := f]
    {
      var d := new Dependency.Make(reg, f);
      if d.key in reg.m {
        return Failure(AlreadyExists(d.key));
      }
      reg.m := reg.m[d.key := f];
      r := Success(d);
    }

    /** `dep(x)`: forwards to whatever the registry holds for `key`. */
    method Call(x: A) returns (r: Result<R, DepError>)
      ensures r.Failure? <==> key !in reg.m
      ensures r.Failure? ==> r.error == NotFound(key)
      ensures r.Success? ==> r.value == reg.m[key].run(x)
    {
      if key !in reg.m {
        return Failure(NotFound(key));
      }
      r := Success(reg.m[key].run(x));
    }

    /** `perm_override(g)`: installs `g` under g's own key, with no duplicate check. */
    method PermOverride(g: Callable<A, R>)
      modifies reg
      ensures reg.m == Step(View(), old(reg.m), Op.PermOverride(g))
      ensures var k := KeyOf(reg.digest, g.site); k in reg.m && reg.m[k] == g
      ensures KeyOf(reg.digest, g.site) != key && key in old(reg.m) ==> key in reg.m && reg.m[key] == old(reg.m)[key]
    {
      var overrideKey := KeyOf(reg.digest, g.site);
      reg.m := reg.m[overrideKey := g];
    }

    /** `restore()`: puts back the construction-time callable. */
    method Restore()
      modifies reg
      ensures reg.m == Step(View(), old(reg.m), Op.Restore)
      ensures key in reg.m && reg.m[key] == original
    {
      reg.m := reg.m[key := original];
    }

    /** Entering `with dep.override(g)`. */
    method OverrideEnter(g: Callable<A, R>)
      modifies reg
      ensures reg.m == Step(View(), old(reg.m), Enter(g))
      ensures key in reg.m && reg.m[key] == g
    {
      reg.m := reg.m[key := g];
    }

    /** The `finally` of `override`: puts back the construction-time callable. */
    method OverrideExit()
      modifies reg
      ensures reg.m == Step(View(), old(reg.m), Exit)
      ensures key in reg.m && reg.m[key] == original
    {
      reg.m := reg.m[key := original];
    }

    /**
     * `with dep.override(g): <body>`. The body sees `g` installed, may change
     * the registry arbitrarily and may raise; the exit runs either way.
     */
    method Override(g: Callable<A, R>, body: map<Key, Callable<A, R>> -> BodyRun<A, R>) returns (raised: bool)
      modifies reg
      ensures var inside := old(reg.m)[key := g];
        raised == body(inside).raised && reg.m == Step(View(), body(inside).registry, Exit)
      ensures key in reg.m && reg.m[key] == original
    {
      OverrideEnter(g);
      var run := body(reg.m);
      reg.m := run.registry;
      OverrideExit();
      raised := run.raised;
    }
  }

  /** Registering, calling, and registering the same callable again. */
  method RegistrationScenario<A, R>(digest: string -> Key, f: Callable<A, R>, x: A)
    returns (first: Result<R, DepError>, again: Result<Dependency<A, R>, DepError>, still: Result<R, DepError>)
    ensures first == Success(f.run(x))
    ensures again == Failure(AlreadyExists(KeyOf(digest, f.site)))
    ensures still == first
  {
    var reg := new Registry(digest);
    var r := Dependency.New(reg, f);
    var dep := r.value;
    first := dep.Call(x);
    again := Dependency.New(reg, f);
    still := dep.Call(x);
  }

  /**
   * A call between entering and leaving an override scope reaches `g`; after
   * it, it reaches `f` again. The inside call is made between `OverrideEnter`
   * and `OverrideExit`, since the block that `Override` runs is a function of
   * the registry and makes no calls; `Override` is then run with a block that
   * may raise, and the call after it reaches `f` either way.
   */
  method OverrideScenario<A, R>(digest: string -> Key, f: Callable<A, R>, g: Callable<A, R>, x: A, raises: bool)
    returns (before: Result<R, DepError>, inside: Result<R, DepError>, after: Result<R, DepError>, raised: bool)
    ensures before == Success(f.run(x)) && inside == Success(g.run(x))
    ensures after == before && raised == raises
  {
    var reg := new Registry(digest);
    var r := Dependency.New(reg, f);
    var dep := r.value;
    before := dep.Call(x);
    dep.OverrideEnter(g);
    inside := dep.Call(x);
    dep.OverrideExit();
    raised := dep.Override(g, m => BodyRun(m, raises));
    after := dep.Call(x);
  }

  /** Overriding one handle leaves another handle's calls alone. */
  method IsolationScenario<A, R>(digest: string -> Key, fa: Callable<A, R>, fb: Callable<A, R>, g: Callable<A, R>, x: A)
    returns (a: Result<R, DepError>, b: Result<R, DepError>)
    requires KeyOf(digest, fa.site) != KeyOf(digest, fb.site)
    ensures a == Success(g.run(x)) && b == Success(fb.run(x))
  {
    var reg := new Registry(digest);
    var ra := Dependency.New(reg, fa);
    var rb := Dependency.New(reg, fb);
    var depA, depB := ra.value, rb.value;
    depA.OverrideEnter(g);
    a := depA.Call(x);
    b := depB.Call(x);
    depA.OverrideExit();
  }
}
