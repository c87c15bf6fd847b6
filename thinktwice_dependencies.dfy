/**
 * The `Dependency` registry of the `thinktwiceutils` package: registration,
 * forwarding calls, and a scoped `override` that keeps the entry it replaces
 * in a single per-instance backup field.
 */
module ThinkTwiceDependencies {
  import opened Wrappers
  import opened Identity
  import opened DependencyRegistry
  import opened Traces

  /** What one handle's operations act on: the shared registry and the handle's `_original_dep`. */
  datatype Snapshot<!A, R> = Snapshot(registry: map<Key, Callable<A, R>>, backup: Option<Callable<A, R>>)

  /**
   * One registry write: the handle's own `override` entry and exit, and
   * `Write(k, f)` for whatever other code does to the shared registry.
   */
  datatype Op<!A, R> =
    | Enter(g: Callable<A, R>)          // entering `with dep.override(g)`
    | Exit                              // its `finally`
    | Write(k: Key, f: Callable<A, R>)

  /** The one key an operation may write. */
  function Target<A, R>(key: Key, op: Op<A, R>): (k: Key)
  {
    if op.Write? then op.k else key
  }

  /**
   * The state after one operation of the handle with key `key`. Entering on an
   * absent key raises KeyError before anything is written. An exit with no
   * backup cannot follow an entry, so it is left as a no-op.
   */
  function Step<A, R>(key: Key, s: Snapshot<A, R>, op: Op<A, R>): (r: Snapshot<A, R>)
    ensures s.registry.Keys <= r.registry.Keys <= s.registry.Keys + {Target(key, op)}
    ensures forall k :: k in s.registry && k != Target(key, op) ==> r.registry[k] == s.registry[k]
    ensures op.Enter? && key in s.registry ==> r.backup == Some(s.registry[key]) && r.registry[key] == op.g
    ensures op.Enter? && key !in s.registry ==> r == s
    ensures op.Exit? && s.backup.None? ==> r == s
    ensures op.Exit? && s.backup.Some? ==> r.backup == s.backup && key in r.registry && r.registry[key] == s.backup.value
    ensures op.Write? ==> r.backup == s.backup && op.k in r.registry && r.registry[op.k] == op.f
  {
    match op
    case Enter(g) =>
      if key in s.registry then Snapshot(s.registry[key := g], Some(s.registry[key])) else s
    case Exit =>
      if s.backup.Some? then Snapshot(s.registry[key := s.backup.value], s.backup) else s
    case Write(k, f) => Snapshot(s.registry[k := f], s.backup)
  }

  function Stepper<A, R>(key: Key): (step: (Snapshot<A, R>, Op<A, R>) -> Snapshot<A, R>)
  {
    (s, op) => Step(key, s, op)
  }

  /** No run of operations removes a key from the registry. */
  lemma {:induction false} KeysNeverDisappear<A, R>(key: Key, s: Snapshot<A, R>, ops: seq<Op<A, R>>)
    ensures s.registry.Keys <= Run(Stepper(key), s, ops).registry.Keys
    decreases |ops|
  {
    if ops != [] {
      KeysNeverDisappear(key, Step(key, s, ops[0]), ops[1..]);
    }
  }

  /** Other code's writes never touch this handle's backup. */
  lemma {:induction false} WritesKeepBackup<A, R>(key: Key, s: Snapshot<A, R>, ops: seq<Op<A, R>>)
    requires forall i :: 0 <= i < |ops| ==> ops[i].Write?
    ensures Run(Stepper(key), s, ops).backup == s.backup
    decreases |ops|
  {
    if ops != [] {
      WritesKeepBackup(key, Step(key, s, ops[0]), ops[1..]);
    }
  }

  /**
   * A single `override(g)`: inside the scope the entry is `g`; after it, whatever
   * other code wrote meanwhile, the entry is the value it held on entry.
   */
  lemma SingleOverrideRestores<A, R>(key: Key, s: Snapshot<A, R>, g: Callable<A, R>, inner: seq<Op<A, R>>)
    requires key in s.registry
    requires forall i :: 0 <= i < |inner| ==> inner[i].Write?
    ensures var r := Run(Stepper(key), s, [Enter(g)]).registry; key in r && r[key] == g
    ensures var r := Run(Stepper(key), s, [Enter(g)] + inner + [Exit]).registry; key in r && r[key] == s.registry[key]
  {
    var st := Stepper(key);
    var s1 := Step(key, s, Enter(g));
    assert Run(st, s, [Enter(g)]) == Run(st, s1, []);
    RunConcat(st, s, [Enter(g)], inner);
    WritesKeepBackup(key, s1, inner);
    RunConcat(st, s, [Enter(g)] + inner, [Exit]);
    var before := Run(st, s, [Enter(g)] + inner);
    assert Run(st, before, [Exit]) == Run(st, Step(key, before, Exit), []);
  }

  /**
   * Nested `override(a)` then `override(b)`: the inner entry overwrites the
   * backup with `a`, so both exits leave `a` and the value held before the
   * outer scope is lost.
   */
  lemma NestedOverrideLosesOriginal<A, R>(key: Key, s: Snapshot<A, R>, a: Callable<A, R>, b: Callable<A, R>)
    requires key in s.registry
    ensures var r := Run(Stepper(key), s, [Enter(a), Enter(b), Exit]).registry; key in r && r[key] == a
    ensures var r := Run(Stepper(key), s, [Enter(a), Enter(b), Exit, Exit]).registry; key in r && r[key] == a
  {
    var st := Stepper(key);
    var s1 := Step(key, s, Enter(a));
    var s2 := Step(key, s1, Enter(b));
    var s3 := Step(key, s2, Exit);
    assert Run(st, s, [Enter(a), Enter(b), Exit]) == Run(st, s1, [Enter(b), Exit])
      == Run(st, s2, [Exit]) == Run(st, s3, []);
    assert Run(st, s, [Enter(a), Enter(b), Exit, Exit]) == Run(st, s1, [Enter(b), Exit, Exit])
      == Run(st, s2, [Exit, Exit]) == Run(st, s3, [Exit]);
  }

  /** An entry no operation targets keeps its value: handles do not see each other's overrides. */
  lemma {:induction false} Isolation<A, R>(key: Key, s: Snapshot<A, R>, ops: seq<Op<A, R>>, k: Key)
    requires k in s.registry
    requires forall i :: 0 <= i < |ops| ==> Target(key, ops[i]) != k
    ensures var r := Run(Stepper(key), s, ops).registry; k in r && r[k] == s.registry[k]
    decreases |ops|
  {
    if ops != [] {
      Isolation(key, Step(key, s, ops[0]), ops[1..], k);
    }
  }

  /** A `Dependency` instance of `thinktwiceutils`. */
  class Dependency<A, R> {
    const reg: Registry<A, R>
    const key: Key
    var backup: Option<Callable<A, R>>

    function Current(): (s: Snapshot<A, R>)
      reads this, reg
    {
      Snapshot(reg.m, backup)
    }

    /** Sets the field `__init__` computes; `New` adds the registration check. */
    constructor Make(reg: Registry<A, R>, f: Callable<A, R>)
      ensures this.reg == reg && key == KeyOf(reg.digest, f.site) && backup == None
    {
      this.reg := reg;
      key := KeyOf(reg.digest, f.site);
      backup := None;
    }

    /** `Dependency(f)`: registers `f` under its key, or raises if the key is taken. */
    static method New(reg: Registry<A, R>, f: Callable<A, R>) returns (r: Result<Dependency<A, R>, DepError>)
      modifies reg
      ensures var k := KeyOf(reg.digest, f.site);
        if k in old(reg.m) then
          r == Failure(AlreadyExists(k)) && reg.m == old(reg.m)
        else
          && r.Success? && fresh(r.value)
          && r.value.reg == reg && r.value.key == k && r.value.backup == None
          && reg.m == old(reg.m)[k := f]
    {
      var d := new Dependency.Make(reg, f);
      if d.key in reg.m {
        return Failure(AlreadyExists(d.key));
      }
      reg.m := reg.m[d.key := f];
      r := Success(d);
    }

    /** `dep(x)`: forwards to whatever the registry holds for `key`. */
    method Call(x: A) returns (r: Result<R, DepError>)
      ensures r.Failure? <==> key !in reg.m
      ensures r.Failure? ==> r.error == NotFound(key)
      ensures r.Success? ==> r.value == reg.m[key].run(x)
    {
      if key !in reg.m {
        return Failure(NotFound(key));
      }
      r := Success(reg.m[key].run(x));
    }

    /** Entering `with dep.override(g)`: back up the current entry, then install `g`. */
    method OverrideEnter(g: Callable<A, R>) returns (r: Outcome<DepError>)
      modifies this, reg
      ensures Current() == Step(key, old(Current()), Enter(g))
      ensures r.Fail? <==> key !in old(reg.m)
      ensures r.Fail? ==> r.error == KeyMissing(key)
    {
      if key !in reg.m {
        return Fail(KeyMissing(key));
      }
      backup := Some(reg.m[key]);
      reg.m := reg.m[key := g];
      r := Pass;
    }

    /** The `finally` of `override`: write the backup back. It only runs after an entry succeeded. */
    method OverrideExit()
      requires backup.Some?
      modifies reg
      ensures Current() == Step(key, old(Current()), Exit)
      ensures key in reg.m && reg.m[key] == backup.value
    {
      reg.m := reg.m[key := backup.value];
    }

    /**
     * `with dep.override(g): <body>`. If the entry succeeds, the body sees `g`
     * installed, may change the registry arbitrarily and may raise; the exit
     * runs either way and writes back the entry's value at entry.
     */
    method Override(g: Callable<A, R>, body: map<Key, Callable<A, R>> -> BodyRun<A, R>)
      returns (entered: Outcome<DepError>, raised: bool)
      modifies this, reg
      ensures key !in old(reg.m) ==>
        entered == Fail(KeyMissing(key)) && !raised && Current() == old(Current())
      ensures key in old(reg.m) ==>
        var inside := old(reg.m)[key := g];
        && entered == Pass && raised == body(inside).raised
        && backup == Some(old(reg.m)[key])
        && reg.m == body(inside).registry[key := old(reg.m)[key]]
    {
      raised := false;
      entered := OverrideEnter(g);
      if entered.Fail? {
        return;
      }
      var run := body(reg.m);
      reg.m := run.registry;
      OverrideExit();
      raised := run.raised;
    }
  }

  /**
   * A call between entering and leaving an override scope reaches `g`; after
   * it, it reaches `f` again. The inside call is made between `OverrideEnter`
   * and `OverrideExit`, since the block that `Override` runs is a function of
   * the registry and makes no calls; `Override` is then run with a block that
   * may raise, and the call after it reaches `f` either way.
   */
  method OverrideScenario<A, R>(digest: string -> Key, f: Callable<A, R>, g: Callable<A, R>, x: A, raises: bool)
    returns (before: Result<R, DepError>, inside: Result<R, DepError>, after: Result<R, DepError>, raised: bool)
    ensures before == Success(f.run(x)) && inside == Success(g.run(x))
    ensures after == before && raised == raises
  {
    var reg := new Registry(digest);
    var r := Dependency.New(reg, f);
    var dep := r.value;
    before := dep.Call(x);
    var entered := dep.OverrideEnter(g);
    inside := dep.Call(x);
    dep.OverrideExit();
    entered, raised := dep.Override(g, m => BodyRun(m, raises));
    after := dep.Call(x);
  }

  /** Nested overrides on one handle: after both scopes end, calls reach `a`, not `f`. */
  method NestedOverrideScenario<A, R>(digest: string -> Key, f: Callable<A, R>, a: Callable<A, R>, b: Callable<A, R>, x: A)
    returns (afterInner: Result<R, DepError>, afterOuter: Result<R, DepError>)
    ensures afterInner == Success(a.run(x)) && afterOuter == Success(a.run(x))
  {
    var reg := new Registry(digest);
    var r := Dependency.New(reg, f);
    var dep := r.value;
    var outer := dep.OverrideEnter(a);
    var inner := dep.OverrideEnter(b);
    dep.OverrideExit();
    afterInner := dep.Call(x);
    dep.OverrideExit();
    afterOuter := dep.Call(x);
  }
}
