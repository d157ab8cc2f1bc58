/** The pointer duality of a heap tuple: an opaque pointer cache and a typed
    pointer cache, each derivable by a bitcast from the other and only from
    the other, and only while the other is cached. The class
    Emission.TupleValue is proved against these functions. */
module TupleSpec {
  import opened Wrappers
  import opened Llvm
  import CacheSpec

  /** What a tuple constructor seeds from the handle its creation step
      produced: the in-register aggregate, the opaque pointer cache and the
      typed pointer cache. */
  datatype Seeds = Seeds(native: Option<Value>, opaquePtr: Option<Value>, typedPtr: Option<Value>)

  /** A handle seeds at most one representation, and seeds it with itself;
      the null tuple pointer (Unit) and handles of any other type seed none. */
  function Seed(v: Value): (s: Seeds)
    ensures s.native.Some? ==> s.opaquePtr.None? && s.typedPtr.None?
    ensures s.opaquePtr.Some? ==> s.typedPtr.None?
    ensures s.native in {None, Some(v)} && s.opaquePtr in {None, Some(v)} && s.typedPtr in {None, Some(v)}
    ensures v.IsNull() && IsTupleOrUnit(v.ty) ==> s == Seeds(None, None, None)
    ensures s.native.Some? <==> v.ty.StructType?
    ensures s.opaquePtr.Some? <==> IsTupleOrUnit(v.ty) && !v.IsNull()
    ensures s.typedPtr.Some? <==> IsTypedTuple(v.ty)
  {
    Seeds(
      if v.ty.StructType? then Some(v) else None,
      if IsTupleOrUnit(v.ty) && !v.IsNull() then Some(v) else None,
      if IsTypedTuple(v.ty) then Some(v) else None)
  }

  /** The two pointer caches of a tuple. */
  datatype Duality = Duality(opaquePtr: CacheSpec.Entry<Value>, typedPtr: CacheSpec.Entry<Value>)

  /** Both caches are read-only cells: they carry no store closure. */
  predicate Resolvable(d: Duality, q: CacheSpec.Branches) {
    CacheSpec.IsCached(d.opaquePtr, false, q) || CacheSpec.IsCached(d.typedPtr, false, q)
  }

  /** The loader of the opaque cache: a bitcast of the typed pointer when
      that one is cached, an error otherwise. `next` names the instruction
      the bitcast would be. */
  function OpaqueLoader(d: Duality, q: CacheSpec.Branches, next: nat): (r: Result<Value, EmissionError>)
    ensures r.Ok? <==> CacheSpec.IsCached(d.typedPtr, false, q)
    ensures r.Ok? ==> r.value.ty == TuplePointer && r.value.origin == Instruction(next)
    ensures r.Err? ==> r.error == TuplePointerUndefined
  {
    if CacheSpec.IsCached(d.typedPtr, false, q)
    then Ok(ResultOf(next, BitCast(d.typedPtr.payload.value, TuplePointer)))
    else Err(TuplePointerUndefined)
  }

  /** The loader of the typed cache, the mirror image of OpaqueLoader. */
  function TypedLoader(d: Duality, q: CacheSpec.Branches, structType: LlvmType, next: nat): (r: Result<Value, EmissionError>)
    ensures r.Ok? <==> CacheSpec.IsCached(d.opaquePtr, false, q)
    ensures r.Ok? ==> r.value.ty == PointerTo(structType) && r.value.origin == Instruction(next)
    ensures r.Err? ==> r.error == TuplePointerUndefined
  {
    if CacheSpec.IsCached(d.opaquePtr, false, q)
    then Ok(ResultOf(next, BitCast(d.opaquePtr.payload.value, PointerTo(structType))))
    else Err(TuplePointerUndefined)
  }

  /** What loading the opaque pointer emits. */
  function OpaqueEmits(d: Duality, q: CacheSpec.Branches): seq<Instr> {
    if !CacheSpec.IsCached(d.opaquePtr, false, q) && CacheSpec.IsCached(d.typedPtr, false, q)
    then [BitCast(d.typedPtr.payload.value, TuplePointer)]
    else []
  }

  /** What loading the typed pointer emits. */
  function TypedEmits(d: Duality, q: CacheSpec.Branches, structType: LlvmType): seq<Instr> {
    if !CacheSpec.IsCached(d.typedPtr, false, q) && CacheSpec.IsCached(d.opaquePtr, false, q)
    then [BitCast(d.opaquePtr.payload.value, PointerTo(structType))]
    else []
  }

  function LoadOpaque(d: Duality, q: CacheSpec.Branches, next: nat): (Duality, Result<Value, EmissionError>) {
    var (e, r) := CacheSpec.Load(d.opaquePtr, false, q, OpaqueLoader(d, q, next));
    (d.(opaquePtr := e), r)
  }

  function LoadTyped(d: Duality, q: CacheSpec.Branches, structType: LlvmType, next: nat): (Duality, Result<Value, EmissionError>) {
    var (e, r) := CacheSpec.Load(d.typedPtr, false, q, TypedLoader(d, q, structType, next));
    (d.(typedPtr := e), r)
  }

  /** Pointer duality round trip from the typed side: deriving the opaque
      pointer and then the typed pointer gives back the original typed
      pointer, with at most the one bitcast emitted. */
  lemma TypedRoundTrip(d: Duality, q: CacheSpec.Branches, structType: LlvmType, next: nat)
    requires q.WellFormed() && CacheSpec.IsCached(d.typedPtr, false, q)
    ensures LoadOpaque(d, q, next).1.Ok?
    ensures LoadTyped(LoadOpaque(d, q, next).0, q, structType, next + |OpaqueEmits(d, q)|).1 == Ok(d.typedPtr.payload.value)
    ensures TypedEmits(LoadOpaque(d, q, next).0, q, structType) == []
    ensures |OpaqueEmits(d, q)| <= 1
  {
  }

  /** The same round trip from the opaque side. */
  lemma OpaqueRoundTrip(d: Duality, q: CacheSpec.Branches, structType: LlvmType, next: nat)
    requires q.WellFormed() && CacheSpec.IsCached(d.opaquePtr, false, q)
    ensures LoadTyped(d, q, structType, next).1.Ok?
    ensures LoadOpaque(LoadTyped(d, q, structType, next).0, q, next + |TypedEmits(d, q, structType)|).1 == Ok(d.opaquePtr.payload.value)
    ensures OpaqueEmits(LoadTyped(d, q, structType, next).0, q) == []
    ensures |TypedEmits(d, q, structType)| <= 1
  {
  }

  /** A sequence of pointer requests in one context: `true` asks for the
      opaque pointer, `false` for the typed one. Returns the final caches,
      the results in order and what was emitted. */
  function LoadAll(d: Duality, q: CacheSpec.Branches, structType: LlvmType, next: nat, requests: seq<bool>)
    : (Duality, seq<Result<Value, EmissionError>>, seq<Instr>)
    decreases |requests|
  {
    if requests == [] then (d, [], [])
    else
      var emits := if requests[0] then OpaqueEmits(d, q) else TypedEmits(d, q, structType);
      var (d1, r) := if requests[0] then LoadOpaque(d, q, next) else LoadTyped(d, q, structType, next);
      var (d2, rs, es) := LoadAll(d1, q, structType, next + |emits|, requests[1..]);
      (d2, [r] + rs, emits + es)
  }

  /** Unresolved duality is permanent: when neither cache holds a valid
      pointer, every request fails, nothing is emitted and nothing changes. */
  lemma {:induction false} UnresolvedStaysUnresolved(d: Duality, q: CacheSpec.Branches, structType: LlvmType, next: nat, requests: seq<bool>)
    requires !Resolvable(d, q)
    ensures LoadAll(d, q, structType, next, requests).0 == d
    ensures LoadAll(d, q, structType, next, requests).2 == []
    ensures |LoadAll(d, q, structType, next, requests).1| == |requests|
    ensures forall k :: 0 <= k < |requests| ==> LoadAll(d, q, structType, next, requests).1[k] == Err(TuplePointerUndefined)
    decreases |requests|
  {
    if requests != [] {
      UnresolvedStaysUnresolved(d, q, structType, next, requests[1..]);
    }
  }

  /** Once both caches are valid, every request is answered from them and
      nothing is emitted. */
  lemma {:induction false} BothCachedServeEverything(d: Duality, q: CacheSpec.Branches, structType: LlvmType, next: nat, requests: seq<bool>)
    requires CacheSpec.IsCached(d.opaquePtr, false, q) && CacheSpec.IsCached(d.typedPtr, false, q)
    ensures LoadAll(d, q, structType, next, requests).0 == d
    ensures LoadAll(d, q, structType, next, requests).2 == []
    ensures |LoadAll(d, q, structType, next, requests).1| == |requests|
    ensures forall k :: 0 <= k < |requests| ==>
      LoadAll(d, q, structType, next, requests).1[k] == Ok(if requests[k] then d.opaquePtr.payload.value else d.typedPtr.payload.value)
    decreases |requests|
  {
    if requests != [] {
      BothCachedServeEverything(d, q, structType, next, requests[1..]);
      var rs := LoadAll(d, q, structType, next, requests).1;
      forall k | 1 <= k < |requests|
        ensures rs[k] == Ok(if requests[k] then d.opaquePtr.payload.value else d.typedPtr.payload.value)
      {
        assert requests[1..][k - 1] == requests[k];
      }
    }
  }

  /** One request to a resolvable tuple succeeds, emits at most one bitcast,
      leaves the tuple resolvable, and leaves both caches valid when it
      emitted. */
  lemma FirstRequestResolves(d: Duality, q: CacheSpec.Branches, structType: LlvmType, next: nat, askOpaque: bool)
    requires q.WellFormed() && Resolvable(d, q)
    ensures var step := if askOpaque then LoadOpaque(d, q, next) else LoadTyped(d, q, structType, next);
      var emits := if askOpaque then OpaqueEmits(d, q) else TypedEmits(d, q, structType);
      && step.1.Ok? && |emits| <= 1 && Resolvable(step.0, q)
      && (emits != [] ==> CacheSpec.IsCached(step.0.opaquePtr, false, q) && CacheSpec.IsCached(step.0.typedPtr, false, q))
  {
  }

  /** A resolvable tuple answers every request along a straight-line path
      and emits at most one bitcast in all. */
  lemma {:induction false} ResolvedCastsAtMostOnce(d: Duality, q: CacheSpec.Branches, structType: LlvmType, next: nat, requests: seq<bool>)
    requires q.WellFormed() && Resolvable(d, q)
    ensures |LoadAll(d, q, structType, next, requests).1| == |requests|
    ensures forall k :: 0 <= k < |requests| ==> LoadAll(d, q, structType, next, requests).1[k].Ok?
    ensures |LoadAll(d, q, structType, next, requests).2| <= 1
    decreases |requests|
  {
    if requests != [] {
      var step := if requests[0] then LoadOpaque(d, q, next) else LoadTyped(d, q, structType, next);
      var emits := if requests[0] then OpaqueEmits(d, q) else TypedEmits(d, q, structType);
      FirstRequestResolves(d, q, structType, next, requests[0]);
      var tail := LoadAll(step.0, q, structType, next + |emits|, requests[1..]);
      assert LoadAll(d, q, structType, next, requests) == (tail.0, [step.1] + tail.1, emits + tail.2);
      if emits == [] {
        ResolvedCastsAtMostOnce(step.0, q, structType, next, requests[1..]);
      } else {
        BothCachedServeEverything(step.0, q, structType, next + |emits|, requests[1..]);
      }
      forall k | 1 <= k < |requests|
        ensures LoadAll(d, q, structType, next, requests).1[k].Ok?
      {
        assert ([step.1] + tail.1)[k] == tail.1[k - 1];
      }
    }
  }
}
