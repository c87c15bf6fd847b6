/** The process-wide mapping from key to active callable that a `Dependency` class shares. */
module DependencyRegistry {
  import opened Identity

  /** The errors the registry operations raise. */
  datatype DepError =
    | AlreadyExists(key: Key)   // ValueError "Dependency with key ... already exists"
    | NotFound(key: Key)        // ValueError "Dependency ... not found"
    | KeyMissing(key: Key)      // KeyError from reading an absent entry

  /** What the block of a `with dep.override(...)` did: the registry it left and whether it raised. */
  datatype BodyRun<!A, R> = BodyRun(registry: map<Key, Callable<A, R>>, raised: bool)

  /**
   * The class attribute `registry`, shared by every instance of one `Dependency`
   * class. `digest` stands for SHA-256 hex digest of the key preimage.
   */
  class Registry<A, R> {
    var m: map<Key, Callable<A, R>>
    const digest: string -> Key

    constructor (digest: string -> Key)
      ensures m == map[] && this.digest == digest
    {
      m := map[];
      this.digest := digest;
    }
  }
}
