/** The memoisation cell IValue.Cached as a class: a cache field holding the
    branch that produced the payload and the payload, a context to ask the
    branch queries of, and whether the owner gave it a store closure. Every
    operation is proved against the pure cell of module CacheSpec. */
module Caching {
  import opened Wrappers
  import opened Llvm
  import CacheSpec
  import opened Generation

  /** A load closure, as the owner builds it at the moment of the load: emit
      one instruction and wrap its result, or refuse with an error. */
  datatype Loader<T> = Emit(instr: Instr, wrap: Value -> T) | Refuse(error: EmissionError)

  /** What a loader produces when its instruction becomes log entry `next`. */
  function Loaded<T>(loader: Loader<T>, next: nat): Result<T, EmissionError> {
    match loader
    case Emit(i, wrap) => Ok(wrap(ResultOf(next, i)))
    case Refuse(e) => Err(e)
  }

  /** What a loader emits when it runs. */
  function Emits<T>(loader: Loader<T>): seq<Instr> {
    match loader
    case Emit(i, _) => [i]
    case Refuse(_) => []
  }

  class Cached<T> {
    const ctx: GenerationContext
    /** Whether the owner gave the cell a store closure; the owner performs
        the write itself once Store has accepted it. */
    const hasStore: bool
    var branch: int
    var payload: Option<T>

    /** A cell stamped with the current branch, holding `value` if given. */
    constructor (value: Option<T>, ctx: GenerationContext, hasStore: bool)
      ensures this.ctx == ctx && this.hasStore == hasStore
      ensures Entry() == CacheSpec.Entry(ctx.currentBranch, value)
    {
      this.ctx := ctx;
      this.hasStore := hasStore;
      branch, payload := ctx.currentBranch, value;
    }

    function Entry(): CacheSpec.Entry<T>
      reads this`branch, this`payload
    {
      CacheSpec.Entry(branch, payload)
    }

    /** The payload may be reused: see CacheSpec.IsCached. */
    predicate IsCached()
      reads this`branch, this`payload, ctx`currentBranch, ctx`openBranches, ctx`withinLoop, ctx`currentLoop
      ensures IsCached() ==> payload.Some? && branch in ctx.openBranches
      ensures ctx.Valid() && payload.Some? && branch == ctx.currentBranch ==> IsCached()
    {
      CacheSpec.IsCached(Entry(), hasStore, ctx.Branches())
    }

    /** Overwrites the cache field with `v`, stamped with the current branch. */
    method Refresh(v: T)
      modifies this`branch, this`payload
      ensures Entry() == CacheSpec.Stamp(ctx.Branches(), v)
    {
      branch, payload := ctx.currentBranch, Some(v);
    }

    /** Returns the payload when it is valid, and otherwise runs the loader
        and caches what it produced. */
    method Load(loader: Loader<T>) returns (r: Result<T, EmissionError>)
      modifies this`branch, this`payload, ctx`log
      ensures (Entry(), r) == CacheSpec.Load(old(Entry()), hasStore, ctx.Branches(), Loaded(loader, |old(ctx.log)|))
      ensures ctx.log == old(ctx.log) + (if old(IsCached()) then [] else Emits(loader))
    {
      if IsCached() {
        r := Ok(payload.value);
      } else {
        match loader {
          case Emit(i, wrap) =>
            var h := ctx.Emit(i);
            Refresh(wrap(h));
            r := Ok(wrap(h));
          case Refuse(e) =>
            r := Err(e);
        }
      }
    }

    /** Accepts the store when the cell has a store closure, and then caches
        `v` stamped with the current branch; refuses it otherwise. */
    method Store(v: T) returns (r: Outcome<EmissionError>)
      modifies this`branch, this`payload
      ensures r.Pass? <==> hasStore
      ensures match CacheSpec.Store(old(Entry()), hasStore, ctx.Branches(), v)
        case Ok(e) => Entry() == e
        case Err(err) => r == Fail(err) && Entry() == old(Entry())
    {
      if !hasStore {
        r := Fail(NoStorageFunction);
      } else {
        Refresh(v);
        r := Pass;
      }
    }
  }
}
