/** The branch-aware memoisation cell (IValue.Cached) as a pure state
    machine: when a cached payload may be reused, what a load and a store do
    to the cell, and what a run of loads, stores and moves between branches
    observes. The class Caching.Cached is proved against these functions. */
module CacheSpec {
  import opened Wrappers
  import opened Llvm

  /** The generation context's answers to the branch queries the cell asks. */
  datatype Branches = Branches(current: int, open: set<int>, withinLoop: bool, currentLoop: set<int>) {
    predicate IsOpenBranch(b: int) {
      b in open
    }

    predicate IsWithinCurrentLoop(b: int) {
      b in currentLoop
    }

    /** The branch being emitted into is open and, inside a loop, part of the
        current loop. */
    predicate WellFormed() {
      IsOpenBranch(current) && (withinLoop ==> IsWithinCurrentLoop(current))
    }
  }

  /** The cache field of a cell: the branch that produced the payload, and
      the payload, which may be absent. */
  datatype Entry<T> = Entry(branch: int, payload: Option<T>)

  /** The cell's validity test: a payload is present, the branch that produced
      it is still open, and, for a cell with a store closure, the context is
      not inside a loop or that branch lies within the current loop. */
  predicate IsCached<T>(e: Entry<T>, hasStore: bool, q: Branches)
    ensures IsCached(e, hasStore, q) ==> e.payload.Some? && q.IsOpenBranch(e.branch)
    ensures q.WellFormed() && e.payload.Some? && e.branch == q.current ==> IsCached(e, hasStore, q)
  {
    && e.payload.Some?
    && q.IsOpenBranch(e.branch)
    && (!hasStore || !q.withinLoop || q.IsWithinCurrentLoop(e.branch))
  }

  /** The entry a reload or a store leaves: stamped with the current branch. */
  function Stamp<T>(q: Branches, v: T): Entry<T> {
    Entry(q.current, Some(v))
  }

  /** A load: the payload when it is valid; otherwise what the loader gives,
      which is cached when the loader succeeds. */
  function Load<T>(e: Entry<T>, hasStore: bool, q: Branches, loaded: Result<T, EmissionError>): (r: (Entry<T>, Result<T, EmissionError>))
    ensures IsCached(e, hasStore, q) ==> r == (e, Ok(e.payload.value))
    ensures !IsCached(e, hasStore, q) ==> r.1 == loaded
    ensures r.1.Ok? ==> r.0.payload == Some(r.1.value)
    ensures r.1.Err? ==> r.0 == e
  {
    if IsCached(e, hasStore, q) then (e, Ok(e.payload.value))
    else if loaded.Ok? then (Stamp(q, loaded.value), loaded)
    else (e, loaded)
  }

  /** A store: refused without a store closure, otherwise never skipped. */
  function Store<T>(e: Entry<T>, hasStore: bool, q: Branches, v: T): (r: Result<Entry<T>, EmissionError>)
    ensures r.Ok? <==> hasStore
    ensures r.Ok? ==> r.value.payload == Some(v) && r.value.branch == q.current
    ensures r.Ok? && q.WellFormed() ==> IsCached(r.value, hasStore, q)
    ensures r.Err? ==> r.error == NoStorageFunction
  {
    if hasStore then Ok(Stamp(q, v)) else Err(NoStorageFunction)
  }

  /** A successful load hands back a present payload, and the cell then holds
      exactly that payload and passes its validity test as long as the context
      does not move. */
  lemma LoadCachesItsResult<T>(e: Entry<T>, hasStore: bool, q: Branches, loaded: Result<T, EmissionError>)
    requires q.WellFormed()
    requires IsCached(e, hasStore, q) || loaded.Ok?
    ensures Load(e, hasStore, q, loaded).1.Ok?
    ensures Load(e, hasStore, q, loaded).0.payload == Some(Load(e, hasStore, q, loaded).1.value)
    ensures IsCached(Load(e, hasStore, q, loaded).0, hasStore, q)
  {
  }

  // ---------------------------------------------------------------------
  // Runs: a cell seen through a sequence of events.

  /** What happens to a cell: the context moves to other branches, the value
      is read (`memory` is what a reload would produce), or it is written. */
  datatype Event<T> = Enter(q: Branches) | Read(memory: T) | Write(v: T)

  /** What an event shows: a read served from the cache, a read that called
      the loader, a store performed, a store refused. */
  datatype Observation<T> = Moved | Hit(value: T) | Reloaded(value: T) | Written | Refused(error: EmissionError)

  /** A cell and the context it is in. */
  datatype Cell<T> = Cell(entry: Entry<T>, hasStore: bool, q: Branches)

  function Step<T>(c: Cell<T>, ev: Event<T>): (Cell<T>, Observation<T>) {
    match ev
    case Enter(q') => (c.(q := q'), Moved)
    case Read(m) =>
      var (e', r) := Load(c.entry, c.hasStore, c.q, Ok(m));
      (c.(entry := e'), if IsCached(c.entry, c.hasStore, c.q) then Hit(r.value) else Reloaded(r.value))
    case Write(v) =>
      match Store(c.entry, c.hasStore, c.q, v)
      case Ok(e') => (c.(entry := e'), Written)
      case Err(err) => (c, Refused(err))
  }

  function Run<T>(c: Cell<T>, events: seq<Event<T>>): seq<Observation<T>>
    decreases |events|
  {
    if events == [] then []
    else [Step(c, events[0]).1] + Run(Step(c, events[0]).0, events[1..])
  }

  /** The context keeps branch `b` visible to a cell with a store closure: open
      and, inside a loop, within the current loop. */
  predicate KeepsVisible(q: Branches, b: int) {
    q.IsOpenBranch(b) && (!q.withinLoop || q.IsWithinCurrentLoop(b))
  }

  /** No write, and every move keeps branch `b` visible. */
  predicate QuietFor<T>(events: seq<Event<T>>, b: int) {
    forall k :: 0 <= k < |events| ==> match events[k]
      case Enter(q) => KeepsVisible(q, b)
      case Read(_) => true
      case Write(_) => false
  }

  lemma {:induction false} RunLength<T>(c: Cell<T>, events: seq<Event<T>>)
    ensures |Run(c, events)| == |events|
    decreases |events|
  {
    if events != [] {
      RunLength(Step(c, events[0]).0, events[1..]);
    }
  }

  /** A cell holding `v` from a branch the context keeps visible serves every
      read from the cache. */
  lemma {:induction false} VisiblePayloadIsServed<T>(c: Cell<T>, v: T, events: seq<Event<T>>)
    requires c.entry.payload == Some(v) && KeepsVisible(c.q, c.entry.branch)
    requires QuietFor(events, c.entry.branch)
    ensures |Run(c, events)| == |events|
    ensures forall k :: 0 <= k < |events| && events[k].Read? ==> Run(c, events)[k] == Hit(v)
    decreases |events|
  {
    RunLength(c, events);
    if events != [] {
      var c' := Step(c, events[0]).0;
      assert QuietFor(events[1..], c.entry.branch) by {
        forall k | 0 <= k < |events[1..]|
          ensures match events[1..][k]
            case Enter(q) => KeepsVisible(q, c.entry.branch)
            case Read(_) => true
            case Write(_) => false
        {
          assert events[1..][k] == events[k + 1];
        }
      }
      match events[0] {
        case Enter(q) =>
          VisiblePayloadIsServed(c', v, events[1..]);
        case Read(m) =>
          VisiblePayloadIsServed(c', v, events[1..]);
        case Write(_) =>
          assert false;
      }
      forall k | 1 <= k < |events| && events[k].Read?
        ensures Run(c, events)[k] == Hit(v)
      {
        assert events[1..][k - 1] == events[k];
      }
    }
  }

  /** Cache soundness: after a store of `v`, reads return `v` without calling
      the loader for as long as no further store happens and the context keeps
      the storing branch open and, inside loops, within the current loop. */
  lemma StoreThenReadsHit<T>(c: Cell<T>, v: T, events: seq<Event<T>>)
    requires c.hasStore && c.q.WellFormed()
    requires QuietFor(events, c.q.current)
    ensures Step(c, Write(v)).1 == Written
    ensures |Run(Step(c, Write(v)).0, events)| == |events|
    ensures forall k :: 0 <= k < |events| && events[k].Read? ==> Run(Step(c, Write(v)).0, events)[k] == Hit(v)
  {
    VisiblePayloadIsServed(Step(c, Write(v)).0, v, events);
  }

  /** Cache conservatism: a cell with a store closure whose payload comes
      from a branch that is closed, or from outside the current loop while
      inside a loop, reloads on the next read and returns the fresh value. */
  lemma StaleEntryIsReloaded<T>(c: Cell<T>, m: T)
    requires c.hasStore && !KeepsVisible(c.q, c.entry.branch)
    ensures Step(c, Read(m)) == (c.(entry := Stamp(c.q, m)), Reloaded(m))
  {
  }

  /** A cell without a store closure ignores loops: it reloads only when its
      payload is missing or its branch is closed. */
  lemma ReadOnlyCellIgnoresLoops<T>(e: Entry<T>, q: Branches)
    ensures IsCached(e, false, q) <==> e.payload.Some? && q.IsOpenBranch(e.branch)
  {
  }

  function CountWrites<T>(events: seq<Event<T>>): nat
    decreases |events|
  {
    if events == [] then 0 else (if events[0].Write? then 1 else 0) + CountWrites(events[1..])
  }

  function CountWritten<T>(os: seq<Observation<T>>): nat
    decreases |os|
  {
    if os == [] then 0 else (if os[0].Written? then 1 else 0) + CountWritten(os[1..])
  }

  function CountRefused<T>(os: seq<Observation<T>>): nat
    decreases |os|
  {
    if os == [] then 0 else (if os[0].Refused? then 1 else 0) + CountRefused(os[1..])
  }

  /** Stores are never elided: with a store closure every write is performed,
      without one every write is refused. */
  lemma {:induction false} StoresAreNeverSkipped<T>(c: Cell<T>, events: seq<Event<T>>)
    ensures c.hasStore ==> CountWritten(Run(c, events)) == CountWrites(events)
    ensures !c.hasStore ==> CountRefused(Run(c, events)) == CountWrites(events) && CountWritten(Run(c, events)) == 0
    decreases |events|
  {
    if events != [] {
      StoresAreNeverSkipped(Step(c, events[0]).0, events[1..]);
    }
  }

  /** Two reads in a row, with nothing in between, call the loader at most
      once: the second read is served from what the first left. */
  lemma SecondReadHits<T>(c: Cell<T>, m1: T, m2: T)
    requires c.q.WellFormed()
    ensures Step(c, Read(m1)).1.Hit? || Step(c, Read(m1)).1.Reloaded?
    ensures Step(Step(c, Read(m1)).0, Read(m2)).1 == Hit(Step(c, Read(m1)).1.value)
  {
  }
}
