/** The value objects the emitter passes around: pointers with a cached
    content, tuples with their pointer duality and element pointers, arrays
    with their length cache and element access, and callables. Each object
    emits its instructions into the generation context's log and reports to
    the scope manager through the context. */
module Emission {
  import opened Wrappers
  import opened Llvm
  import CacheSpec
  import TupleSpec
  import ArraySpec
  import opened Generation
  import opened Caching

  // ---------------------------------------------------------------------
  // PointerValue

  /** Where a pointer's content lives, which fixes what its load and store
      closures do: an address that is loaded from and stored to, or a field
      of an in-register tuple, or an element of a stack array, which are
      extracted from and inserted into their aggregate. */
  datatype Slot =
    | Address(pointer: Value)
    | TupleField(tuple: TupleValue, field: nat)
    | ArrayElement(arrayValue: ArrayValue, element: nat)

  class PointerValue {
    const ctx: GenerationContext
    const qsType: QsType
    const llvmType: LlvmType
    const slot: Slot
    const cachedValue: Cached<TypedValue>

    /** Every pointer's cell has a store closure. */
    predicate Valid() {
      cachedValue.ctx == ctx && cachedValue.hasStore
    }

    /** The in-register tuple a store through this pointer replaces. */
    function TupleOwner(): set<TupleValue> {
      if slot.TupleField? then {slot.tuple} else {}
    }

    /** The stack array a store through this pointer replaces. */
    function ArrayOwner(): set<ArrayValue> {
      if slot.ArrayElement? then {slot.arrayValue} else {}
    }

    /** The instruction the load closure emits; it writes nothing. */
    function ReloadInstr(): (i: Instr)
      reads TupleOwner(), ArrayOwner()
      ensures !i.Store? && !i.InsertValue?
    {
      match slot
      case Address(p) => Load(llvmType, p)
      case TupleField(t, k) => ExtractValue(t.nativeValue, k)
      case ArrayElement(a, k) => ExtractValue(a.value, k)
    }

    /** Where a store through this pointer lands: the address, or the
        position in the aggregate. */
    function Destination(): Target {
      match slot
      case Address(p) => Through(p)
      case TupleField(_, k) => Into(k)
      case ArrayElement(_, k) => Into(k)
    }

    /** The position a store through this pointer replaces in the aggregate
        of `holder`: the field of an in-register tuple or the element of a
        stack array; none when the pointer does not point into it. */
    function PositionIn(holder: Holder): Option<nat> {
      match slot
      case Address(_) => None
      case TupleField(t, k) => if holder == TupleHolder(t) then Some(k) else None
      case ArrayElement(a, k) => if holder == ArrayHolder(a) then Some(k) else None
    }

    /** The instruction the store closure emits for `v`; it writes `v` to
        the pointer's destination. */
    function StoreInstr(v: TypedValue): (i: Instr)
      reads TupleOwner(), ArrayOwner()
      ensures Written([i]) == [Write(v.handle, Destination())]
    {
      match slot
      case Address(p) => Store(v.handle, p)
      case TupleField(t, k) => InsertValue(t.nativeValue, v.handle, k)
      case ArrayElement(a, k) => InsertValue(a.value, v.handle, k)
    }

    /** A pointer backed by `pointer`, or by a fresh stack slot when none is
        given; its cell starts empty. */
    constructor AtAddress(pointer: Option<Value>, qsType: QsType, llvmType: LlvmType, ctx: GenerationContext)
      modifies ctx`log
      ensures Valid() && this.ctx == ctx && this.qsType == qsType && this.llvmType == llvmType
      ensures fresh(cachedValue) && cachedValue.Entry() == CacheSpec.Entry(ctx.currentBranch, None)
      ensures pointer.Some? ==> slot == Address(pointer.value) && ctx.log == old(ctx.log)
      ensures pointer.None? ==>
        && slot == Address(ResultOf(|old(ctx.log)|, Alloca(llvmType)))
        && ctx.log == old(ctx.log) + [Alloca(llvmType)]
    {
      this.ctx := ctx;
      this.qsType := qsType;
      this.llvmType := llvmType;
      var p: Value;
      if pointer.Some? {
        p := pointer.value;
      } else {
        p := ctx.Emit(Alloca(llvmType));
      }
      slot := Address(p);
      cachedValue := new Cached(None, ctx, true);
    }

    /** A pointer to a field or element of an in-register aggregate; nothing
        is emitted. */
    constructor InAggregate(qsType: QsType, llvmType: LlvmType, ctx: GenerationContext, slot: Slot)
      requires !slot.Address?
      ensures Valid() && this.ctx == ctx && this.qsType == qsType && this.llvmType == llvmType && this.slot == slot
      ensures fresh(cachedValue) && cachedValue.Entry() == CacheSpec.Entry(ctx.currentBranch, None)
    {
      this.ctx := ctx;
      this.qsType := qsType;
      this.llvmType := llvmType;
      this.slot := slot;
      cachedValue := new Cached(None, ctx, true);
    }

    /** A mutable variable: a fresh stack slot holding `value`. */
    constructor MutableVariable(value: TypedValue, ctx: GenerationContext)
      modifies ctx`log
      ensures Valid() && this.ctx == ctx && qsType == value.qsType && llvmType == value.handle.ty
      ensures fresh(cachedValue)
      ensures slot == Address(ResultOf(|old(ctx.log)|, Alloca(value.handle.ty)))
      ensures ctx.log == old(ctx.log) + [Alloca(value.handle.ty), Store(value.handle, slot.pointer)]
      ensures cachedValue.Entry() == CacheSpec.Stamp(ctx.Branches(), value)
    {
      this.ctx := ctx;
      this.qsType := value.qsType;
      this.llvmType := value.handle.ty;
      var p := ctx.Emit(Alloca(value.handle.ty));
      slot := Address(p);
      cachedValue := new Cached(None, ctx, true);
      new;
      StoreValue(value);
    }

    /** The current content: the cached one while it is valid, otherwise a
        reload through the slot, which is then cached. */
    method LoadValue() returns (v: TypedValue)
      requires Valid()
      modifies cachedValue`branch, cachedValue`payload, ctx`log
      ensures (cachedValue.Entry(), Ok(v)) ==
        CacheSpec.Load(old(cachedValue.Entry()), true, ctx.Branches(), Ok(TypedValue(ResultOf(|old(ctx.log)|, ReloadInstr()), qsType)))
      ensures ctx.log == old(ctx.log) + (if old(cachedValue.IsCached()) then [] else [ReloadInstr()])
    {
      var ty := qsType;
      var r := cachedValue.Load(Emit(ReloadInstr(), h => TypedValue(h, ty)));
      v := r.value;
    }

    /** Writes `v` through the slot and caches it, stamped with the current
        branch. */
    method StoreValue(v: TypedValue)
      requires Valid()
      modifies cachedValue`branch, cachedValue`payload, ctx`log, TupleOwner()`nativeValue, ArrayOwner()`value
      ensures cachedValue.Entry() == CacheSpec.Stamp(ctx.Branches(), v)
      ensures ctx.log == old(ctx.log) + [old(StoreInstr(v))]
      ensures slot.TupleField? ==> slot.tuple.nativeValue == ResultOf(|old(ctx.log)|, old(StoreInstr(v)))
      ensures slot.ArrayElement? ==> slot.arrayValue.value == ResultOf(|old(ctx.log)|, old(StoreInstr(v)))
    {
      var accepted := cachedValue.Store(v);
      var i := StoreInstr(v);
      var h := ctx.Emit(i);
      match slot {
        case Address(_) =>
        case TupleField(t, _) =>
          t.nativeValue := h;
        case ArrayElement(a, _) =>
          a.value := h;
      }
    }
  }

  /** The aggregate a store loop may insert into: the struct value of an
      in-register tuple, the value of a stack array, or none when every
      store goes through an address. */
  datatype Holder = NoHolder | TupleHolder(tuple: TupleValue) | ArrayHolder(arrayValue: ArrayValue) {
    function Tuples(): set<TupleValue> {
      if TupleHolder? then {tuple} else {}
    }

    function Arrays(): set<ArrayValue> {
      if ArrayHolder? then {arrayValue} else {}
    }

    /** The aggregate value the holder currently has. */
    function Aggregate(): Value
      reads Tuples(), Arrays()
    {
      match this
      case TupleHolder(t) => t.nativeValue
      case ArrayHolder(a) => a.value
      case NoHolder => UnitValue
    }
  }

  /** Every pointer inserts into the aggregate of `holder`. */
  predicate InsertsInto(pointers: seq<PointerValue>, holder: Holder) {
    forall k :: 0 <= k < |pointers| ==> pointers[k].PositionIn(holder).Some?
  }

  /** The store loop shared by the tuple and array constructors: stores
      items[k] through pointers[k] in order and, if asked, increases the
      reference count of each item right after storing it. `owner` tells
      the pointers' content cells apart. When every pointer inserts into
      the aggregate of `holder`, the stores are a run of inserts from its
      old aggregate to its new one. */
  method StoreEach(pointers: seq<PointerValue>, items: seq<TypedValue>, ctx: GenerationContext, ghost cells: set<object>,
                   holder: Holder, ghost owner: map<Cached<TypedValue>, nat>, increase: bool)
    requires |pointers| == |items|
    requires forall k :: 0 <= k < |pointers| ==>
      && pointers[k].Valid() && pointers[k].ctx == ctx && pointers[k].cachedValue in cells
      && pointers[k].TupleOwner() <= holder.Tuples() && pointers[k].ArrayOwner() <= holder.Arrays()
      && pointers[k].cachedValue in owner && owner[pointers[k].cachedValue] == k
    modifies cells, ctx`log, ctx`scopeCalls, ctx`marks, holder.Tuples()`nativeValue, holder.Arrays()`value
    ensures forall k :: 0 <= k < |pointers| ==> pointers[k].cachedValue.Entry() == CacheSpec.Stamp(ctx.Branches(), items[k])
    ensures |old(ctx.log)| <= |ctx.log| && ctx.log[..|old(ctx.log)|] == old(ctx.log)
    ensures var ws := Written(ctx.log[|old(ctx.log)|..]);
      |ws| == |items| && forall k :: 0 <= k < |items| ==> ws[k] == Write(items[k].handle, pointers[k].Destination())
    ensures ctx.scopeCalls == old(ctx.scopeCalls) + (if increase then IncreaseAll(items) else [])
    ensures |ctx.log| == |old(ctx.log)| + |items|
    ensures ctx.marks == old(ctx.marks) + (if increase then Interleaved(|old(ctx.log)|, |items|) else [])
    ensures InsertsInto(pointers, holder) ==> InsertRun(ctx.log, |old(ctx.log)|, old(holder.Aggregate()), holder.Aggregate())
  {
    ghost var q, start, calls, marks, from := ctx.Branches(), ctx.log, ctx.scopeCalls, ctx.marks, holder.Aggregate();
    for i := 0 to |pointers|
      invariant ctx.Branches() == q
      invariant forall k :: 0 <= k < i ==> pointers[k].cachedValue.Entry() == CacheSpec.Stamp(q, items[k])
      invariant StoredSoFar(ctx.log, ctx.scopeCalls, ctx.marks, pointers, items, i, increase, start, calls, marks)
      invariant InsertsInto(pointers, holder) ==> InsertRun(ctx.log, |start|, from, holder.Aggregate())
    {
      assert forall k :: 0 <= k < i ==> pointers[k].cachedValue != pointers[i].cachedValue;
      StoreNext(pointers, items, i, ctx, holder, increase, q, start, calls, marks, from);
    }
    StoredAll(ctx.log, ctx.scopeCalls, ctx.marks, pointers, items, increase, start, calls, marks);
  }

  /** What the store loop has done after its first `n` stores, begun on the
      log `start` with the scope-manager calls `calls` made at `marks`: one
      instruction per store, writing items[k] through pointers[k], each
      followed by its increase when asked. */
  ghost predicate StoredSoFar(log: seq<Instr>, scopeCalls: seq<ScopeCall>, marks: seq<nat>, pointers: seq<PointerValue>,
                              items: seq<TypedValue>, n: nat, increase: bool, start: seq<Instr>, calls: seq<ScopeCall>, marks0: seq<nat>)
    requires n <= |pointers| == |items|
  {
    && |start| <= |log| && log[..|start|] == start && |log| == |start| + n
    && Written(log[|start|..]) == StoresThrough(pointers[..n], items[..n])
    && scopeCalls == calls + (if increase then IncreaseAll(items[..n]) else [])
    && marks == marks0 + (if increase then Interleaved(|start|, n) else [])
  }

  /** The store loop's state once every item is stored, spelled out. */
  lemma StoredAll(log: seq<Instr>, scopeCalls: seq<ScopeCall>, marks: seq<nat>, pointers: seq<PointerValue>,
                  items: seq<TypedValue>, increase: bool, start: seq<Instr>, calls: seq<ScopeCall>, marks0: seq<nat>)
    requires |pointers| == |items|
    requires StoredSoFar(log, scopeCalls, marks, pointers, items, |items|, increase, start, calls, marks0)
    ensures |start| <= |log| && log[..|start|] == start && |log| == |start| + |items|
    ensures var ws := Written(log[|start|..]);
      |ws| == |items| && forall k :: 0 <= k < |items| ==> ws[k] == Write(items[k].handle, pointers[k].Destination())
    ensures scopeCalls == calls + (if increase then IncreaseAll(items) else [])
    ensures marks == marks0 + (if increase then Interleaved(|start|, |items|) else [])
  {
    assert pointers[..|items|] == pointers && items[..|items|] == items;
  }

  /** One turn of the store loop: stores items[i] through pointers[i],
      taking what the loop keeps from the first `i` items to the first
      i + 1. */
  method StoreNext(pointers: seq<PointerValue>, items: seq<TypedValue>, i: nat, ctx: GenerationContext, holder: Holder, increase: bool,
                   ghost q: CacheSpec.Branches, ghost start: seq<Instr>, ghost calls: seq<ScopeCall>, ghost marks: seq<nat>,
                   ghost from: Value)
    requires i < |pointers| == |items|
    requires pointers[i].Valid() && pointers[i].ctx == ctx
    requires pointers[i].TupleOwner() <= holder.Tuples() && pointers[i].ArrayOwner() <= holder.Arrays()
    requires forall k :: 0 <= k < i ==> pointers[k].cachedValue != pointers[i].cachedValue
    requires ctx.Branches() == q
    requires forall k :: 0 <= k < i ==> pointers[k].cachedValue.Entry() == CacheSpec.Stamp(q, items[k])
    requires StoredSoFar(ctx.log, ctx.scopeCalls, ctx.marks, pointers, items, i, increase, start, calls, marks)
    requires InsertsInto(pointers, holder) ==> InsertRun(ctx.log, |start|, from, holder.Aggregate())
    modifies pointers[i].cachedValue`branch, pointers[i].cachedValue`payload, ctx`log, ctx`scopeCalls, ctx`marks,
      pointers[i].TupleOwner()`nativeValue, pointers[i].ArrayOwner()`value
    ensures forall k :: 0 <= k < i + 1 ==> pointers[k].cachedValue.Entry() == CacheSpec.Stamp(q, items[k])
    ensures StoredSoFar(ctx.log, ctx.scopeCalls, ctx.marks, pointers, items, i + 1, increase, start, calls, marks)
    ensures InsertsInto(pointers, holder) ==> InsertRun(ctx.log, |start|, from, holder.Aggregate())
  {
    ghost var before, calls0, marks0 := ctx.log, ctx.scopeCalls, ctx.marks;
    ghost var inserts := InsertsInto(pointers, holder);
    assert inserts ==> pointers[i].PositionIn(holder).Some?;
    StoreOne(pointers[i], items[i], ctx, increase, holder, inserts, |start|, from);
    WrittenStep(|start|, before, ctx.log, ctx.log[|before|]);
    StoresThroughStep(pointers, items, i);
    ScopeStep(calls, marks, calls0, marks0, ctx.scopeCalls, ctx.marks, items, i, |start|, increase);
  }

  /** The writes of storing items[k] through pointers[k], in order. */
  function StoresThrough(pointers: seq<PointerValue>, items: seq<TypedValue>): (ws: seq<Write>)
    requires |pointers| == |items|
    ensures |ws| == |items| && forall k :: 0 <= k < |items| ==> ws[k] == Write(items[k].handle, pointers[k].Destination())
  {
    seq(|items|, k requires 0 <= k < |items| => Write(items[k].handle, pointers[k].Destination()))
  }

  /** The store loop's step: one more store adds its write at the end. */
  lemma StoresThroughStep(pointers: seq<PointerValue>, items: seq<TypedValue>, i: nat)
    requires i < |pointers| == |items|
    ensures StoresThrough(pointers[..i + 1], items[..i + 1]) ==
      StoresThrough(pointers[..i], items[..i]) + [Write(items[i].handle, pointers[i].Destination())]
  {
  }

  /** One step of the store loop: stores `item` through `p` and, if asked,
      increases its reference count. */
  method StoreOne(p: PointerValue, item: TypedValue, ctx: GenerationContext, increase: bool,
                  holder: Holder, ghost inserts: bool, ghost start: nat, ghost from: Value)
    requires p.Valid() && p.ctx == ctx
    requires p.TupleOwner() <= holder.Tuples() && p.ArrayOwner() <= holder.Arrays()
    requires inserts ==> p.PositionIn(holder).Some? && InsertRun(ctx.log, start, from, holder.Aggregate())
    modifies p.cachedValue`branch, p.cachedValue`payload, ctx`log, ctx`scopeCalls, ctx`marks, p.TupleOwner()`nativeValue, p.ArrayOwner()`value
    ensures p.cachedValue.Entry() == CacheSpec.Stamp(ctx.Branches(), item)
    ensures ctx.log == old(ctx.log) + [old(p.StoreInstr(item))]
    ensures Written([ctx.log[|old(ctx.log)|]]) == [Write(item.handle, p.Destination())]
    ensures ctx.scopeCalls == old(ctx.scopeCalls) + (if increase then [IncreaseReferenceCount(item)] else [])
    ensures ctx.marks == old(ctx.marks) + (if increase then [|ctx.log|] else [])
    ensures inserts ==> InsertRun(ctx.log, start, from, holder.Aggregate())
  {
    ghost var before, agg := ctx.log, holder.Aggregate();
    p.StoreValue(item);
    if increase {
      ctx.IncreaseCount(item);
    }
    if inserts {
      InsertRunStep(before, start, from, agg, ctx.log[|before|]);
    }
  }


  /** The load loop shared by the tuple and array accessors: loads the
      content of each pointer in order; a pointer whose cell is empty is
      reloaded, which gives a value of the pointer's type. Loading writes
      nothing. */
  method LoadEach(pointers: seq<PointerValue>, ctx: GenerationContext, ghost cells: set<object>, ghost owner: map<Cached<TypedValue>, nat>)
    returns (values: seq<TypedValue>)
    requires forall k :: 0 <= k < |pointers| ==>
      && pointers[k].Valid() && pointers[k].ctx == ctx && pointers[k].cachedValue in cells
      && pointers[k].cachedValue in owner && owner[pointers[k].cachedValue] == k
    modifies cells, ctx`log
    ensures |values| == |pointers|
    ensures forall k :: 0 <= k < |pointers| ==> pointers[k].cachedValue.payload == Some(values[k])
    ensures forall k :: 0 <= k < |pointers| && old(pointers[k].cachedValue.IsCached()) ==>
      values[k] == old(pointers[k].cachedValue.payload.value)
    ensures forall k :: 0 <= k < |pointers| && !old(pointers[k].cachedValue.IsCached()) ==>
      values[k].qsType == pointers[k].qsType
    ensures GrowsWithoutWrites(old(ctx.log), ctx.log)
  {
    values := [];
    while |values| < |pointers|
      invariant |values| <= |pointers|
      invariant forall k :: 0 <= k < |values| ==> pointers[k].cachedValue.payload == Some(values[k])
      invariant forall k :: 0 <= k < |values| && old(pointers[k].cachedValue.IsCached()) ==>
        values[k] == old(pointers[k].cachedValue.payload.value)
      invariant forall k :: 0 <= k < |values| && !old(pointers[k].cachedValue.IsCached()) ==>
        values[k].qsType == pointers[k].qsType
      invariant forall k :: |values| <= k < |pointers| ==> pointers[k].cachedValue.Entry() == old(pointers[k].cachedValue.Entry())
      invariant ctx.Branches() == old(ctx.Branches())
      invariant GrowsWithoutWrites(old(ctx.log), ctx.log)
    {
      var k := |values|;
      assert forall j :: 0 <= j < |pointers| && j != k ==> pointers[j].cachedValue != pointers[k].cachedValue;
      assert pointers[k].cachedValue.IsCached() == old(pointers[k].cachedValue.IsCached());
      var v := pointers[k].LoadValue();
      values := values + [v];
    }
  }

  // ---------------------------------------------------------------------
  // TupleValue

  /** How the private tuple constructor obtains its handle: a runtime
      allocation (registered with the scope manager if asked), the null
      aggregate of a stack tuple, or a handle given by the caller. */
  datatype Creation = AllocateOnHeap(register: bool) | NullOnStack | Existing(handle: Value)

  /** The Q# types of some typed values. */
  function QsTypes(items: seq<TypedValue>): (ts: seq<QsType>)
    ensures |ts| == |items| && forall k :: 0 <= k < |items| ==> ts[k] == items[k].qsType
  {
    seq(|items|, k requires 0 <= k < |items| => items[k].qsType)
  }

  /** The LLVM types of some typed values. */
  function LlvmTypes(items: seq<TypedValue>): (ts: seq<LlvmType>)
    ensures |ts| == |items| && forall k :: 0 <= k < |items| ==> ts[k] == items[k].handle.ty
  {
    seq(|items|, k requires 0 <= k < |items| => items[k].handle.ty)
  }

  /** The lowered (non-native) LLVM types of some Q# types. */
  function Lowered(lower: (QsType, bool) -> LlvmType, ts: seq<QsType>): (ls: seq<LlvmType>)
    ensures |ls| == |ts| && forall k :: 0 <= k < |ts| ==> ls[k] == lower(ts[k], false)
  {
    seq(|ts|, k requires 0 <= k < |ts| => lower(ts[k], false))
  }

  /** The runtime call that allocates a tuple of the given layout. */
  function TupleAllocation(structType: LlvmType): Instr {
    Call(TupleCreate, [Value(SizeOf(structType), Int64)])
  }

  /** The handle a creation step produces when its instruction, if any,
      becomes log entry `next`. */
  function Created(creation: Creation, structType: LlvmType, next: nat): Value {
    match creation
    case AllocateOnHeap(_) => ResultOf(next, TupleAllocation(structType))
    case NullOnStack => NullValue(structType)
    case Existing(v) => v
  }

  /** `a` is the address of field `i` of the tuple of layout `structType`
      whose handle is `root`, as `log` records it: the result of a struct
      element pointer instruction for that field, computed from a pointer
      that addresses `root`. */
  ghost predicate FieldAddress(log: seq<Instr>, root: Value, structType: LlvmType, a: Value, i: nat) {
    && a.origin.Instruction? && a.origin.id < |log|
    && log[a.origin.id].StructElementPointer?
    && log[a.origin.id].structType == structType && log[a.origin.id].index == i
    && Aliases(log, root, log[a.origin.id].base)
    && a == ResultOf(a.origin.id, log[a.origin.id])
  }

  /** A field address stays one as the log grows. */
  lemma FieldAddressGrows(before: seq<Instr>, log: seq<Instr>, root: Value, structType: LlvmType, a: Value, i: nat)
    requires |before| <= |log| && log[..|before|] == before
    requires FieldAddress(before, root, structType, a, i)
    ensures FieldAddress(log, root, structType, a, i)
  {
    assert log[a.origin.id] == before[a.origin.id];
    AliasesGrows(before, log, root, before[a.origin.id].base);
  }

  /** The element pointer instruction for field `i`, emitted next from a
      pointer that addresses `root`, yields the address of that field. */
  lemma FieldAddressEmitted(log: seq<Instr>, root: Value, structType: LlvmType, base: Value, i: nat)
    requires Aliases(log, root, base)
    ensures var gep := StructElementPointer(structType, base, i);
      FieldAddress(log + [gep], root, structType, ResultOf(|log|, gep), i)
  {
    var longer := log + [StructElementPointer(structType, base, i)];
    assert longer[..|log|] == log;
    AliasesGrows(log, longer, root, base);
  }

  class TupleValue {
    const ctx: GenerationContext
    const typeName: Option<string>
    const elementTypes: seq<QsType>
    const llvmElementTypes: seq<LlvmType>
    const structType: LlvmType
    /** Whether the tuple lives in a register as a struct value; decided once
        by the constructor from the type of the created handle. */
    const inRegister: bool
    /** The struct value of an in-register tuple, replaced by every store to
        one of its fields. */
    var nativeValue: Value
    const opaquePointer: Cached<Value>
    const typedPointer: Cached<Value>
    const elementPointers: seq<Cached<PointerValue>>
    /** The handle the creation step produced: the allocation of a heap
        tuple, the null aggregate of a stack tuple, or the handle given. */
    ghost const root: Value
    /** The field each element-pointer cell belongs to. */
    ghost const cellField: map<Cached<PointerValue>, nat>
    /** The field whose pointer owns each content cell handed out so far. */
    ghost var contentField: map<Cached<TypedValue>, nat>

    /** The pointer `p` is a valid pointer to field `i`: for a heap tuple
        the address of field `i` computed from a pointer to this tuple's
        handle, as `log` records it; for an in-register tuple the field of
        this tuple's struct value. */
    ghost predicate FieldPointer(log: seq<Instr>, i: int, p: PointerValue) {
      && 0 <= i < |elementTypes| && i < |llvmElementTypes|
      && p.Valid() && p.ctx == ctx
      && p.qsType == elementTypes[i] && p.llvmType == llvmElementTypes[i]
      && if inRegister then p.slot == TupleField(this, i) else p.slot.Address? && FieldAddress(log, root, structType, p.slot.pointer, i)
    }

    /** A write to `target` lands in field `k`: the address of this tuple's
        field for a heap tuple, position `k` of the struct value for an
        in-register one. */
    ghost predicate FieldTarget(log: seq<Instr>, target: Target, k: nat) {
      if inRegister then target == Into(k) else target.Through? && FieldAddress(log, root, structType, target.pointer, k)
    }

    /** The two pointer caches are distinct read-only cells of the tuple's
        context. */
    predicate PointerCaches() {
      && opaquePointer.ctx == ctx && !opaquePointer.hasStore
      && typedPointer.ctx == ctx && !typedPointer.hasStore
      && opaquePointer != typedPointer
    }

    /** The layout invariant, fixed at construction: one read-only cell per
        field, each cell belonging to its own field. */
    ghost predicate Valid() {
      && structType == StructType(llvmElementTypes)
      && |elementTypes| == |llvmElementTypes| == |elementPointers|
      && PointerCaches()
      && (forall i :: 0 <= i < |elementPointers| ==> elementPointers[i].ctx == ctx && !elementPointers[i].hasStore)
      && (forall i :: 0 <= i < |elementPointers| ==> elementPointers[i] in cellField && cellField[elementPointers[i]] == i)
    }

    /** What the caches hold points into this tuple: both cached tuple
        pointers address its handle, every cached element pointer points to
        its field, and its content cell belongs to that field alone. */
    ghost predicate Payloads()
      reads this`contentField, elementPointers, opaquePointer, typedPointer, ctx`log
    {
      AnchoredIn(ctx.log) && FieldsIn(ctx.log)
    }

    /** The cached tuple pointers address the handle, as `log` records it. */
    ghost predicate AnchoredIn(log: seq<Instr>)
      reads opaquePointer, typedPointer
    {
      && (opaquePointer.payload.Some? ==> Aliases(log, root, opaquePointer.payload.value))
      && (typedPointer.payload.Some? ==> Aliases(log, root, typedPointer.payload.value))
    }

    /** The cached element pointers point to their fields, as `log` records
        it, and their content cells belong to those fields alone. */
    ghost predicate FieldsIn(log: seq<Instr>)
      reads this`contentField, elementPointers
    {
      forall i :: 0 <= i < |elementPointers| && elementPointers[i].payload.Some? ==>
        && FieldPointer(log, i, elementPointers[i].payload.value)
        && elementPointers[i].payload.value.cachedValue in contentField
        && contentField[elementPointers[i].payload.value.cachedValue] == i
    }

    /** The cached tuple pointers keep addressing the handle as the log
        grows. */
    lemma AnchoredGrows(before: seq<Instr>, log: seq<Instr>)
      requires |before| <= |log| && log[..|before|] == before
      requires AnchoredIn(before)
      ensures AnchoredIn(log)
    {
      if opaquePointer.payload.Some? {
        AliasesGrows(before, log, root, opaquePointer.payload.value);
      }
      if typedPointer.payload.Some? {
        AliasesGrows(before, log, root, typedPointer.payload.value);
      }
    }

    /** Cached element pointers keep pointing to their fields as the log
        grows. */
    lemma FieldsGrow(before: seq<Instr>, log: seq<Instr>)
      requires |before| <= |log| && log[..|before|] == before
      requires FieldsIn(before)
      ensures FieldsIn(log)
    {
      forall i | 0 <= i < |elementPointers| && elementPointers[i].payload.Some? && !inRegister
        ensures FieldAddress(log, root, structType, elementPointers[i].payload.value.slot.pointer, i)
      {
        FieldAddressGrows(before, log, root, structType, elementPointers[i].payload.value.slot.pointer, i);
      }
    }

    /** Both halves of Payloads survive the log growing. */
    lemma PayloadsGrow(before: seq<Instr>, log: seq<Instr>)
      requires |before| <= |log| && log[..|before|] == before
      requires AnchoredIn(before) && FieldsIn(before)
      ensures AnchoredIn(log) && FieldsIn(log)
    {
      AnchoredGrows(before, log);
      FieldsGrow(before, log);
    }

    /** The two pointer caches, as the pure duality of module TupleSpec. */
    function Duality(): TupleSpec.Duality
      reads opaquePointer, typedPointer
    {
      TupleSpec.Duality(opaquePointer.Entry(), typedPointer.Entry())
    }

    /** Field pointers can be produced: the tuple is in a register, or one of
        its pointer caches is valid. */
    predicate Resolvable()
      reads opaquePointer, typedPointer, ctx
    {
      inRegister || TupleSpec.Resolvable(Duality(), ctx.Branches())
    }

    /** The LLVM type of the tuple value: the struct for an in-register
        tuple, a pointer to it otherwise. */
    function LlvmType(): (t: LlvmType)
      ensures inRegister ==> t == structType
      ensures !inRegister ==> t == PointerTo(structType) && (IsTypedTuple(t) || !structType.StructType?)
    {
      if inRegister then structType else PointerTo(structType)
    }

    /** The private constructor, up to its store loop (see StoreFields):
        creates the handle, registering a heap allocation with the scope
        manager if asked, and seeds the representation caches from the type
        of the handle. */
    constructor Build(typeName: Option<string>, creation: Creation, types: seq<QsType>, lowered: seq<LlvmType>,
                      ctx: GenerationContext)
      requires |types| == |lowered|
      modifies ctx`log, ctx`scopeCalls, ctx`marks
      ensures Valid() && Payloads() && this.ctx == ctx && this.typeName == typeName && contentField == map[]
      ensures elementTypes == types && llvmElementTypes == lowered
      ensures var v := Created(creation, structType, |old(ctx.log)|);
        && root == v && inRegister == v.ty.StructType? && nativeValue == v
        && fresh(opaquePointer) && fresh(typedPointer)
        && Duality() == TupleSpec.Duality(
             CacheSpec.Entry(ctx.currentBranch, TupleSpec.Seed(v).opaquePtr),
             CacheSpec.Entry(ctx.currentBranch, TupleSpec.Seed(v).typedPtr))
      ensures ctx.log == old(ctx.log) + (if creation.AllocateOnHeap? then [TupleAllocation(structType)] else [])
      ensures ctx.scopeCalls == old(ctx.scopeCalls) + (if creation == AllocateOnHeap(true) then [RegisterValue(this)] else [])
      ensures ctx.marks == old(ctx.marks) + (if creation == AllocateOnHeap(true) then [|ctx.log|] else [])
      ensures forall i :: 0 <= i < |elementPointers| ==>
        fresh(elementPointers[i]) && elementPointers[i].Entry() == CacheSpec.Entry(ctx.currentBranch, None)
    {
      this.ctx := ctx;
      this.typeName := typeName;
      elementTypes := types;
      llvmElementTypes := lowered;
      structType := StructType(lowered);
      var v: Value;
      if creation.AllocateOnHeap? {
        v := ctx.Emit(TupleAllocation(StructType(lowered)));
      } else if creation.NullOnStack? {
        v := NullValue(StructType(lowered));
      } else {
        v := creation.handle;
      }
      var seeds := TupleSpec.Seed(v);
      inRegister := seeds.native.Some?;
      nativeValue := v;
      root := v;
      opaquePointer := new Cached(seeds.opaquePtr, ctx, false);
      typedPointer := new Cached(seeds.typedPtr, ctx, false);
      var cells, fields := FieldCaches(ctx, |types|);
      elementPointers := cells;
      cellField := fields;
      contentField := map[];
      new;
      AliasesSelf(ctx.log, v);
      if creation == AllocateOnHeap(true) {
        ctx.Register(this);
      }
    }

    /** One empty element-pointer cell per field, without a store closure,
        and the field each cell belongs to. */
    static method FieldCaches(ctx: GenerationContext, n: nat) returns (cells: seq<Cached<PointerValue>>, ghost fields: map<Cached<PointerValue>, nat>)
      ensures |cells| == n
      ensures forall i :: 0 <= i < n ==>
        && fresh(cells[i]) && cells[i].ctx == ctx && !cells[i].hasStore
        && cells[i].Entry() == CacheSpec.Entry(ctx.currentBranch, None)
      ensures forall i :: 0 <= i < n ==> cells[i] in fields && fields[cells[i]] == i
    {
      cells, fields := [], map[];
      while |cells| < n
        invariant |cells| <= n
        invariant forall i :: 0 <= i < |cells| ==>
          && fresh(cells[i]) && cells[i].ctx == ctx && !cells[i].hasStore
          && cells[i].Entry() == CacheSpec.Entry(ctx.currentBranch, None)
        invariant forall i :: 0 <= i < |cells| ==> cells[i] in fields && fields[cells[i]] == i
      {
        var c := new Cached(None, ctx, false);
        fields := fields[c := |cells|];
        cells := cells + [c];
      }
    }

    /** The store loop of the private constructor: stores `items` into the
        fields in order, through the field pointers. */
    method StoreFields(items: seq<TypedValue>)
      requires Valid() && Payloads() && |items| == |elementPointers|
      requires ctx.Valid() && Resolvable()
      requires contentField == map[]
      modifies this`nativeValue, this`contentField, elementPointers, typedPointer`branch, typedPointer`payload, ctx`log, ctx`scopeCalls, ctx`marks
      ensures Payloads() && ctx.scopeCalls == old(ctx.scopeCalls) && ctx.marks == old(ctx.marks)
      ensures |old(ctx.log)| <= |ctx.log| && ctx.log[..|old(ctx.log)|] == old(ctx.log)
      ensures var ws := Written(ctx.log[|old(ctx.log)|..]);
        |ws| == |items| && forall k :: 0 <= k < |items| ==> ws[k].value == items[k].handle && FieldTarget(ctx.log, ws[k].target, k)
      ensures FieldsHold(items)
      ensures forall c :: c in contentField ==> fresh(c)
      ensures inRegister && old(Holds(ctx.log, nativeValue)).Some? ==>
        Holds(ctx.log, nativeValue) == Some(old(Holds(ctx.log, nativeValue)).value + Fill(items))
    {
      var pointers := GetTupleElementPointers();
      ghost var loaded := ctx.log;
      if Holds(old(ctx.log), nativeValue).Some? {
        HoldsGrows(old(ctx.log), loaded, nativeValue);
      }
      label Loaded:
      StoreThrough(pointers.value, items);
      WrittenAfterQuietPrefix(old(ctx.log), loaded, ctx.log);
      forall i | 0 <= i < |elementPointers|
        ensures elementPointers[i].IsCached()
      {
        assert elementPointers[i].Entry() == old@Loaded(elementPointers[i].Entry());
      }
    }

    /** Writes of `items` through the pointers to the fields, in order,
        land in those fields. */
    lemma StoredIntoFields(log: seq<Instr>, ps: seq<PointerValue>, items: seq<TypedValue>, ws: seq<Write>)
      requires |ps| == |items| == |ws|
      requires forall k :: 0 <= k < |ps| ==> FieldPointer(log, k, ps[k])
      requires forall k :: 0 <= k < |ps| ==> ws[k] == Write(items[k].handle, ps[k].Destination())
      ensures forall k :: 0 <= k < |ps| ==> ws[k].value == items[k].handle && FieldTarget(log, ws[k].target, k)
    {
    }

    /** Stores `items` in order through the cached field pointers `ps`. */
    method StoreThrough(ps: seq<PointerValue>, items: seq<TypedValue>)
      requires Payloads() && |items| == |ps| == |elementPointers|
      requires forall k :: 0 <= k < |ps| ==> elementPointers[k].payload == Some(ps[k])
      modifies this`nativeValue, contentField.Keys, ctx`log, ctx`scopeCalls, ctx`marks
      ensures Payloads() && ctx.scopeCalls == old(ctx.scopeCalls) && ctx.marks == old(ctx.marks)
      ensures |old(ctx.log)| <= |ctx.log| && ctx.log[..|old(ctx.log)|] == old(ctx.log)
      ensures var ws := Written(ctx.log[|old(ctx.log)|..]);
        |ws| == |items| && forall k :: 0 <= k < |items| ==> ws[k].value == items[k].handle && FieldTarget(ctx.log, ws[k].target, k)
      ensures forall i :: 0 <= i < |elementPointers| ==>
        && elementPointers[i].payload == Some(ps[i])
        && ps[i].cachedValue.Entry() == CacheSpec.Stamp(ctx.Branches(), items[i])
      ensures inRegister && old(Holds(ctx.log, nativeValue)).Some? ==>
        Holds(ctx.log, nativeValue) == Some(old(Holds(ctx.log, nativeValue)).value + Fill(items))
    {
      StoreEach(ps, items, ctx, contentField.Keys, TupleHolder(this), contentField, false);
      PayloadsGrow(old(ctx.log), ctx.log);
      StoredIntoFields(ctx.log, ps, items, Written(ctx.log[|old(ctx.log)|..]));
      if inRegister && Holds(old(ctx.log), old(nativeValue)).Some? {
        assert forall k :: 0 <= k < |ps| ==> ps[k].slot == TupleField(this, k);
        assert InsertsInto(ps, TupleHolder(this));
        RunHolds(old(ctx.log), ctx.log, old(nativeValue), nativeValue, items);
      }
    }

    /** The opaque tuple pointer: the cached one, or a bitcast of the typed
        pointer when that one is valid, or an error. */
    method OpaquePointer() returns (r: Result<Value, EmissionError>)
      requires PointerCaches() && AnchoredIn(ctx.log)
      modifies opaquePointer`branch, opaquePointer`payload, ctx`log
      ensures (Duality(), r) == TupleSpec.LoadOpaque(old(Duality()), ctx.Branches(), |old(ctx.log)|)
      ensures ctx.log == old(ctx.log) + TupleSpec.OpaqueEmits(old(Duality()), ctx.Branches())
      ensures AnchoredIn(ctx.log) && (r.Ok? ==> Aliases(ctx.log, root, r.value))
    {
      var loader := if typedPointer.IsCached() then Emit(BitCast(typedPointer.payload.value, TuplePointer), h => h)
                    else Refuse(TuplePointerUndefined);
      if typedPointer.IsCached() {
        AliasesCast(ctx.log, root, typedPointer.payload.value, TuplePointer);
      }
      r := opaquePointer.Load(loader);
      if typedPointer.payload.Some? {
        AliasesGrows(old(ctx.log), ctx.log, root, typedPointer.payload.value);
      }
      if opaquePointer.payload.Some? && opaquePointer.payload == old(opaquePointer.payload) {
        AliasesGrows(old(ctx.log), ctx.log, root, opaquePointer.payload.value);
      }
    }

    /** The typed tuple pointer: the cached one, or a bitcast of the opaque
        pointer when that one is valid, or an error. */
    method TypedPointer() returns (r: Result<Value, EmissionError>)
      requires PointerCaches() && AnchoredIn(ctx.log)
      modifies typedPointer`branch, typedPointer`payload, ctx`log
      ensures (Duality(), r) == TupleSpec.LoadTyped(old(Duality()), ctx.Branches(), structType, |old(ctx.log)|)
      ensures ctx.log == old(ctx.log) + TupleSpec.TypedEmits(old(Duality()), ctx.Branches(), structType)
      ensures AnchoredIn(ctx.log) && (r.Ok? ==> Aliases(ctx.log, root, r.value))
    {
      var loader := if opaquePointer.IsCached() then Emit(BitCast(opaquePointer.payload.value, PointerTo(structType)), h => h)
                    else Refuse(TuplePointerUndefined);
      if opaquePointer.IsCached() {
        AliasesCast(ctx.log, root, opaquePointer.payload.value, PointerTo(structType));
      }
      r := typedPointer.Load(loader);
      if opaquePointer.payload.Some? {
        AliasesGrows(old(ctx.log), ctx.log, root, opaquePointer.payload.value);
      }
      if typedPointer.payload.Some? && typedPointer.payload == old(typedPointer.payload) {
        AliasesGrows(old(ctx.log), ctx.log, root, typedPointer.payload.value);
      }
    }

    /** The tuple's value: the struct value in a register, the typed pointer
        otherwise. */
    method GetValue() returns (r: Result<Value, EmissionError>)
      requires PointerCaches() && AnchoredIn(ctx.log)
      modifies typedPointer`branch, typedPointer`payload, ctx`log
      ensures inRegister ==> r == Ok(nativeValue) && ctx.log == old(ctx.log) && typedPointer.Entry() == old(typedPointer.Entry())
      ensures !inRegister ==>
        && (Duality(), r) == TupleSpec.LoadTyped(old(Duality()), ctx.Branches(), structType, |old(ctx.log)|)
        && ctx.log == old(ctx.log) + TupleSpec.TypedEmits(old(Duality()), ctx.Branches(), structType)
    {
      if inRegister {
        r := Ok(nativeValue);
      } else {
        r := TypedPointer();
      }
    }

    /** The load closure of the cell of field `i`: a new pointer to the
        field, for a heap tuple an address computed from the typed pointer,
        for an in-register tuple the field of the struct value. */
    method NewFieldPointer(i: nat) returns (r: Result<PointerValue, EmissionError>)
      requires PointerCaches() && AnchoredIn(ctx.log) && i < |elementTypes| && i < |llvmElementTypes|
      modifies typedPointer`branch, typedPointer`payload, ctx`log
      ensures AnchoredIn(ctx.log)
      ensures r.Ok? ==>
        && FieldPointer(ctx.log, i, r.value) && fresh(r.value) && fresh(r.value.cachedValue)
        && r.value.cachedValue.Entry() == CacheSpec.Entry(ctx.currentBranch, None)
      ensures r.Err? ==> r.error == TuplePointerUndefined
      ensures GrowsWithoutWrites(old(ctx.log), ctx.log)
      ensures ctx.Valid() && old(Resolvable()) ==> r.Ok? && Resolvable()
      ensures inRegister ==>
        && r.Ok? && r.value.slot == TupleField(this, i)
        && ctx.log == old(ctx.log) && typedPointer.Entry() == old(typedPointer.Entry())
      ensures !inRegister ==>
        var (d, t) := TupleSpec.LoadTyped(old(Duality()), ctx.Branches(), structType, |old(ctx.log)|);
        && Duality() == d
        && (t.Err? ==> r == Err(t.error) && ctx.log == old(ctx.log))
        && (t.Ok? ==>
             var emitted := old(ctx.log) + TupleSpec.TypedEmits(old(Duality()), ctx.Branches(), structType);
             && ctx.log == emitted + [StructElementPointer(structType, t.value, i)]
             && r.Ok? && r.value.slot == Address(ResultOf(|emitted|, StructElementPointer(structType, t.value, i))))
    {
      if inRegister {
        var p := new PointerValue.InAggregate(elementTypes[i], llvmElementTypes[i], ctx, TupleField(this, i));
        r := Ok(p);
      } else {
        r := HeapFieldPointer(i);
      }
    }

    /** NewFieldPointer for a heap tuple: the element pointer instruction for
        field `i`, computed from the typed pointer. */
    method HeapFieldPointer(i: nat) returns (r: Result<PointerValue, EmissionError>)
      requires !inRegister && PointerCaches() && AnchoredIn(ctx.log) && i < |elementTypes| && i < |llvmElementTypes|
      modifies typedPointer`branch, typedPointer`payload, ctx`log
      ensures AnchoredIn(ctx.log)
      ensures r.Ok? ==>
        && FieldPointer(ctx.log, i, r.value) && fresh(r.value) && fresh(r.value.cachedValue)
        && r.value.cachedValue.Entry() == CacheSpec.Entry(ctx.currentBranch, None)
      ensures r.Err? ==> r.error == TuplePointerUndefined
      ensures GrowsWithoutWrites(old(ctx.log), ctx.log)
      ensures ctx.Valid() && old(Resolvable()) ==> r.Ok? && Resolvable()
      ensures var (d, t) := TupleSpec.LoadTyped(old(Duality()), ctx.Branches(), structType, |old(ctx.log)|);
        && Duality() == d
        && (t.Err? ==> r == Err(t.error) && ctx.log == old(ctx.log))
        && (t.Ok? ==>
             var emitted := old(ctx.log) + TupleSpec.TypedEmits(old(Duality()), ctx.Branches(), structType);
             && ctx.log == emitted + [StructElementPointer(structType, t.value, i)]
             && r.Ok? && r.value.slot == Address(ResultOf(|emitted|, StructElementPointer(structType, t.value, i))))
    {
      var t := TypedPointer();
      if t.Err? {
        r := Err(t.error);
        return;
      }
      ghost var typed := ctx.log;
      FieldAddressEmitted(typed, root, structType, t.value, i);
      var gep := ctx.Emit(StructElementPointer(structType, t.value, i));
      AnchoredGrows(typed, ctx.log);
      var p := new PointerValue.AtAddress(Some(gep), elementTypes[i], llvmElementTypes[i], ctx);
      r := Ok(p);
    }

    /** The pointer to field `i`: the cached one while valid, otherwise a new
        one (see NewFieldPointer), which is then cached. */
    method GetTupleElementPointer(i: nat) returns (r: Result<PointerValue, EmissionError>)
      requires Valid() && Payloads() && i < |elementPointers|
      modifies this`contentField, elementPointers[i], typedPointer`branch, typedPointer`payload, ctx`log
      ensures Payloads()
      ensures r.Ok? ==> elementPointers[i].payload == Some(r.value) && FieldPointer(ctx.log, i, r.value)
      ensures r.Ok? && ctx.Valid() ==> elementPointers[i].IsCached()
      ensures r.Err? ==> r.error == TuplePointerUndefined && elementPointers[i].Entry() == old(elementPointers[i].Entry())
      ensures ctx.Valid() && old(Resolvable()) ==> r.Ok? && Resolvable()
      ensures GrowsWithoutWrites(old(ctx.log), ctx.log)
      ensures old(elementPointers[i].IsCached()) ==>
        && r == Ok(old(elementPointers[i].payload.value))
        && ctx.log == old(ctx.log) && typedPointer.Entry() == old(typedPointer.Entry())
      ensures forall c :: c in contentField && c !in old(contentField) ==> fresh(c)
    {
      var cell := elementPointers[i];
      if cell.IsCached() {
        r := Ok(cell.payload.value);
        return;
      }
      r := NewFieldPointer(i);
      FieldsGrow(old(ctx.log), ctx.log);
      if r.Ok? {
        cell.Refresh(r.value);
        contentField := contentField[r.value.cachedValue := i];
      }
    }

    /** The cells of the first |ps| fields hold ps, and pass their validity
        test when the context is well formed. */
    ghost predicate CachedPrefix(ps: seq<PointerValue>)
      reads elementPointers, ctx`currentBranch, ctx`openBranches, ctx`withinLoop, ctx`currentLoop
    {
      && |ps| <= |elementPointers|
      && forall k :: 0 <= k < |ps| ==>
           && elementPointers[k].payload == Some(ps[k])
           && (ctx.Valid() && elementPointers[k].ctx == ctx ==> elementPointers[k].IsCached())
    }

    /** The cells of the fields from `m` on all pass their validity test. */
    ghost predicate CachedFrom(m: nat)
      reads elementPointers, ctx`currentBranch, ctx`openBranches, ctx`withinLoop, ctx`currentLoop
    {
      forall j :: m <= j < |elementPointers| ==> elementPointers[j].ctx == ctx && elementPointers[j].IsCached()
    }

    /** Every field's pointer cell is valid and its content cell holds
        `items[i]`, stamped with the current branch. */
    ghost predicate FieldsHold(items: seq<TypedValue>)
      reads elementPointers, this`contentField, contentField.Keys, ctx`currentBranch, ctx`openBranches, ctx`withinLoop, ctx`currentLoop
    {
      forall i :: 0 <= i < |elementPointers| ==>
        && elementPointers[i].ctx == ctx && elementPointers[i].IsCached()
        && elementPointers[i].payload.value.cachedValue in contentField
        && i < |items| && elementPointers[i].payload.value.cachedValue.Entry() == CacheSpec.Stamp(ctx.Branches(), items[i])
    }

    /** The pointers to all fields, in order. */
    method GetTupleElementPointers() returns (r: Result<seq<PointerValue>, EmissionError>)
      requires Valid() && Payloads()
      modifies this`contentField, elementPointers, typedPointer`branch, typedPointer`payload, ctx`log
      ensures Payloads()
      ensures r.Ok? ==> |r.value| == |elementPointers| && forall k :: 0 <= k < |r.value| ==>
        elementPointers[k].payload == Some(r.value[k]) && FieldPointer(ctx.log, k, r.value[k])
      ensures r.Ok? && ctx.Valid() ==> forall k :: 0 <= k < |elementPointers| ==> elementPointers[k].IsCached()
      ensures forall c :: c in contentField && c !in old(contentField) ==> fresh(c)
      ensures r.Err? ==> r.error == TuplePointerUndefined
      ensures ctx.Valid() && old(Resolvable()) ==> r.Ok?
      ensures GrowsWithoutWrites(old(ctx.log), ctx.log)
      ensures old(CachedFrom(0)) ==> r.Ok? && ctx.log == old(ctx.log)
    {
      var ps: seq<PointerValue> := [];
      ghost var hit := CachedFrom(0);
      while |ps| < |elementPointers|
        invariant Payloads()
        invariant |ps| <= |elementPointers|
        invariant CachedPrefix(ps)
        invariant hit ==> ctx.log == old(ctx.log) && CachedFrom(|ps|)
        invariant forall c :: c in contentField && c !in old(contentField) ==> fresh(c)
        invariant ctx.Valid() && old(Resolvable()) ==> Resolvable()
        invariant GrowsWithoutWrites(old(ctx.log), ctx.log)
      {
        ghost var before := ctx.log;
        var p := NextFieldPointer(ps, hit);
        GrowsWithoutWritesTransitive(old(ctx.log), before, ctx.log);
        if p.Err? {
          r := Err(p.error);
          return;
        }
        ps := ps + [p.value];
      }
      AllCached(ps);
      r := Ok(ps);
    }

    /** Once the cells of all fields hold `ps`, each ps[k] points to field k
        and, in a well-formed context, every cell passes its validity test. */
    lemma AllCached(ps: seq<PointerValue>)
      requires Valid() && Payloads() && CachedPrefix(ps) && |ps| == |elementPointers|
      ensures forall k :: 0 <= k < |ps| ==> elementPointers[k].payload == Some(ps[k]) && FieldPointer(ctx.log, k, ps[k])
      ensures ctx.Valid() ==> forall k :: 0 <= k < |elementPointers| ==> elementPointers[k].IsCached()
    {
    }

    /** One step of GetTupleElementPointers: the pointer to the field after
        those in `ps`, which leaves the cells of the earlier fields alone. */
    method NextFieldPointer(ps: seq<PointerValue>, ghost hit: bool) returns (r: Result<PointerValue, EmissionError>)
      requires Valid() && Payloads() && CachedPrefix(ps) && |ps| < |elementPointers|
      requires hit ==> CachedFrom(|ps|)
      modifies this`contentField, elementPointers[|ps|], typedPointer`branch, typedPointer`payload, ctx`log
      ensures Payloads()
      ensures r.Ok? ==> CachedPrefix(ps + [r.value])
      ensures r.Err? ==> r.error == TuplePointerUndefined
      ensures ctx.Valid() && old(Resolvable()) ==> r.Ok? && Resolvable()
      ensures GrowsWithoutWrites(old(ctx.log), ctx.log)
      ensures forall c :: c in contentField && c !in old(contentField) ==> fresh(c)
      ensures hit ==> r.Ok? && ctx.log == old(ctx.log) && CachedFrom(|ps| + 1)
    {
      assert forall k :: 0 <= k < |elementPointers| && k != |ps| ==> elementPointers[k] != elementPointers[|ps|];
      r := GetTupleElementPointer(|ps|);
      if hit {
        forall j | |ps| < j < |elementPointers|
          ensures elementPointers[j].ctx == ctx && elementPointers[j].IsCached()
        {
          assert elementPointers[j].Entry() == old(elementPointers[j].Entry());
        }
      }
      if r.Ok? {
        forall k | 0 <= k < |ps|
          ensures elementPointers[k].payload == Some(ps[k])
          ensures ctx.Valid() && elementPointers[k].ctx == ctx ==> elementPointers[k].IsCached()
        {
          assert elementPointers[k].Entry() == old(elementPointers[k].Entry());
        }
      }
    }

    /** The value of field `i`, loaded through its pointer. */
    method GetTupleElement(i: nat) returns (r: Result<TypedValue, EmissionError>)
      requires Valid() && Payloads() && i < |elementPointers|
      modifies this`contentField, elementPointers[i], typedPointer`branch, typedPointer`payload, ctx`log, contentField.Keys
      ensures Payloads()
      ensures r.Err? ==> r.error == TuplePointerUndefined
      ensures ctx.Valid() && old(Resolvable()) ==> r.Ok?
      ensures r.Ok? ==>
        elementPointers[i].payload.Some? && elementPointers[i].payload.value.cachedValue.payload == Some(r.value)
      ensures old(elementPointers[i].IsCached()) && old(elementPointers[i].payload.value.cachedValue.IsCached()) ==>
        r == Ok(old(elementPointers[i].payload.value.cachedValue.payload.value)) && ctx.log == old(ctx.log)
    {
      var p := GetTupleElementPointer(i);
      if p.Err? {
        r := Err(p.error);
        return;
      }
      assert p.value.cachedValue in contentField;
      ghost var pointed := ctx.log;
      var v := p.value.LoadValue();
      PayloadsGrow(pointed, ctx.log);
      r := Ok(v);
    }

    /** The values of all fields, in order. */
    method GetTupleElements() returns (r: Result<seq<TypedValue>, EmissionError>)
      requires Valid() && Payloads()
      modifies this`contentField, elementPointers, typedPointer`branch, typedPointer`payload, ctx`log, contentField.Keys
      ensures Payloads()
      ensures r.Err? ==> r.error == TuplePointerUndefined
      ensures ctx.Valid() && old(Resolvable()) ==> r.Ok?
      ensures r.Ok? ==> |r.value| == |elementPointers| && forall k :: 0 <= k < |r.value| ==>
        elementPointers[k].payload.Some? && elementPointers[k].payload.value.cachedValue.payload == Some(r.value[k])
      ensures GrowsWithoutWrites(old(ctx.log), ctx.log)
    {
      var pointers := GetTupleElementPointers();
      if pointers.Err? {
        r := Err(pointers.error);
        return;
      }
      var ps := pointers.value;
      ghost var loaded := ctx.log;
      var vs := LoadEach(ps, ctx, contentField.Keys, contentField);
      PayloadsGrow(loaded, ctx.log);
      GrowsWithoutWritesTransitive(old(ctx.log), loaded, ctx.log);
      r := Ok(vs);
    }

    // The public constructors.

    /** A tuple of elements already built from expressions, stored in order
        into the fields of a fresh stack or heap tuple; their reference counts
        are left alone. */
    static method FromBuiltElements(typeName: Option<string>, elements: seq<TypedValue>, ctx: GenerationContext,
                                    allocOnStack: bool, register: bool) returns (t: TupleValue)
      requires ctx.Valid()
      modifies ctx`log, ctx`scopeCalls, ctx`marks
      ensures fresh(t) && t.Valid() && t.Payloads() && t.ctx == ctx && t.typeName == typeName
      ensures t.elementTypes == QsTypes(elements) && t.llvmElementTypes == LlvmTypes(elements) && t.inRegister == allocOnStack
      ensures t.root == if allocOnStack then NullValue(t.structType) else ResultOf(|old(ctx.log)|, TupleAllocation(t.structType))
      ensures fresh(t.opaquePointer) && fresh(t.typedPointer)
      ensures |old(ctx.log)| <= |ctx.log| && ctx.log[..|old(ctx.log)|] == old(ctx.log)
      ensures var ws := Written(ctx.log[|old(ctx.log)|..]);
        |ws| == |elements| && forall k :: 0 <= k < |elements| ==> ws[k].value == elements[k].handle && t.FieldTarget(ctx.log, ws[k].target, k)
      ensures !allocOnStack ==>
        && |old(ctx.log)| < |ctx.log| && ctx.log[|old(ctx.log)|] == TupleAllocation(t.structType)
        && t.opaquePointer.Entry() == CacheSpec.Entry(ctx.currentBranch, Some(ResultOf(|old(ctx.log)|, TupleAllocation(t.structType))))
      ensures forall i :: 0 <= i < |t.elementPointers| ==> fresh(t.elementPointers[i])
      ensures t.FieldsHold(elements)
      ensures forall c :: c in t.contentField ==> fresh(c)
      ensures ctx.scopeCalls == old(ctx.scopeCalls) + (if !allocOnStack && register then [RegisterValue(t)] else [])
      ensures ctx.marks == old(ctx.marks) + (if !allocOnStack && register then [|old(ctx.log)| + 1] else [])
      ensures allocOnStack ==> Holds(ctx.log, t.nativeValue) == Some(Fill(elements))
    {
      t := new TupleValue.Build(typeName, if allocOnStack then NullOnStack else AllocateOnHeap(register),
                                QsTypes(elements), LlvmTypes(elements), ctx);
      ghost var created := ctx.log;
      assert GrowsWithoutWrites(old(ctx.log), created);
      t.StoreFields(elements);
      if allocOnStack {
        FillOverEmpty(elements);
      }
      WrittenAfterQuietPrefix(old(ctx.log), created, ctx.log);
    }

    /** A tuple of the given elements, stored in order, whose reference
        counts are then increased by one each. */
    static method FromElements(typeName: Option<string>, elements: seq<TypedValue>, ctx: GenerationContext,
                               allocOnStack: bool, register: bool) returns (t: TupleValue)
      requires ctx.Valid()
      modifies ctx`log, ctx`scopeCalls, ctx`marks
      ensures fresh(t) && t.Valid() && t.Payloads() && t.ctx == ctx && t.typeName == typeName
      ensures t.elementTypes == QsTypes(elements) && t.llvmElementTypes == LlvmTypes(elements) && t.inRegister == allocOnStack
      ensures t.root == if allocOnStack then NullValue(t.structType) else ResultOf(|old(ctx.log)|, TupleAllocation(t.structType))
      ensures fresh(t.opaquePointer) && fresh(t.typedPointer)
      ensures |old(ctx.log)| <= |ctx.log| && ctx.log[..|old(ctx.log)|] == old(ctx.log)
      ensures var ws := Written(ctx.log[|old(ctx.log)|..]);
        |ws| == |elements| && forall k :: 0 <= k < |elements| ==> ws[k].value == elements[k].handle && t.FieldTarget(ctx.log, ws[k].target, k)
      ensures !allocOnStack ==>
        && |old(ctx.log)| < |ctx.log| && ctx.log[|old(ctx.log)|] == TupleAllocation(t.structType)
        && t.opaquePointer.Entry() == CacheSpec.Entry(ctx.currentBranch, Some(ResultOf(|old(ctx.log)|, TupleAllocation(t.structType))))
      ensures forall i :: 0 <= i < |t.elementPointers| ==> fresh(t.elementPointers[i])
      ensures t.FieldsHold(elements)
      ensures forall c :: c in t.contentField ==> fresh(c)
      ensures ctx.scopeCalls ==
        old(ctx.scopeCalls) + (if !allocOnStack && register then [RegisterValue(t)] else []) + IncreaseAll(elements)
      ensures ctx.marks ==
        old(ctx.marks) + (if !allocOnStack && register then [|old(ctx.log)| + 1] else []) + Together(|ctx.log|, |elements|)
      ensures allocOnStack ==> Holds(ctx.log, t.nativeValue) == Some(Fill(elements))
    {
      t := FromBuiltElements(typeName, elements, ctx, allocOnStack, register);
      ctx.IncreaseCounts(elements);
    }

    /** Construction then access: field `i` of a tuple just built from
        `elements` reads back as elements[i], served from the caches the
        constructor filled, and the read emits nothing. */
    static method ReadBackField(typeName: Option<string>, elements: seq<TypedValue>, ctx: GenerationContext,
                                allocOnStack: bool, register: bool, i: nat)
      returns (t: TupleValue, r: Result<TypedValue, EmissionError>, ghost built: seq<Instr>)
      requires ctx.Valid() && i < |elements|
      modifies ctx`log, ctx`scopeCalls, ctx`marks
      ensures fresh(t) && t.Payloads() && t.elementTypes == QsTypes(elements)
      ensures r == Ok(elements[i])
      ensures ctx.log == built
    {
      t := FromBuiltElements(typeName, elements, ctx, allocOnStack, register);
      built := ctx.log;
      r := t.GetTupleElement(i);
    }

    /** A fresh heap tuple of the given element types, with empty fields. */
    static method Allocate(elementTypes: seq<QsType>, ctx: GenerationContext, register: bool) returns (t: TupleValue)
      requires ctx.Valid()
      modifies ctx`log, ctx`scopeCalls, ctx`marks
      ensures fresh(t) && t.Valid() && t.Payloads() && t.ctx == ctx && t.typeName == None && !t.inRegister
      ensures t.elementTypes == elementTypes && t.llvmElementTypes == Lowered(ctx.lowerType, elementTypes)
      ensures ctx.log == old(ctx.log) + [TupleAllocation(t.structType)]
      ensures t.opaquePointer.Entry() == CacheSpec.Entry(ctx.currentBranch, Some(ResultOf(|old(ctx.log)|, TupleAllocation(t.structType))))
      ensures t.typedPointer.Entry() == CacheSpec.Entry(ctx.currentBranch, None)
      ensures ctx.scopeCalls == old(ctx.scopeCalls) + (if register then [RegisterValue(t)] else [])
      ensures ctx.marks == old(ctx.marks) + (if register then [|ctx.log|] else [])
    {
      t := new TupleValue.Build(None, AllocateOnHeap(register), elementTypes, Lowered(ctx.lowerType, elementTypes), ctx);
    }

    /** A tuple wrapping an existing handle: a struct value, an opaque or a
        typed tuple pointer; nothing is emitted and nothing registered. */
    static method FromHandle(typeName: Option<string>, tuple: Value, elementTypes: seq<QsType>, ctx: GenerationContext)
      returns (t: TupleValue)
      requires ctx.Valid()
      modifies ctx`log, ctx`scopeCalls, ctx`marks
      ensures fresh(t) && t.Valid() && t.Payloads() && t.ctx == ctx && t.typeName == typeName
      ensures t.elementTypes == elementTypes && t.llvmElementTypes == Lowered(ctx.lowerType, elementTypes)
      ensures t.inRegister == tuple.ty.StructType? && (t.inRegister ==> t.nativeValue == tuple)
      ensures t.Duality() == TupleSpec.Duality(
        CacheSpec.Entry(ctx.currentBranch, TupleSpec.Seed(tuple).opaquePtr),
        CacheSpec.Entry(ctx.currentBranch, TupleSpec.Seed(tuple).typedPtr))
      ensures ctx.log == old(ctx.log) && ctx.scopeCalls == old(ctx.scopeCalls) && ctx.marks == old(ctx.marks)
    {
      t := new TupleValue.Build(typeName, Existing(tuple), elementTypes, Lowered(ctx.lowerType, elementTypes), ctx);
    }
  }

  // ---------------------------------------------------------------------
  // ArrayValue

  /** The runtime call that allocates an array of `length` elements of the
      given type. */
  /** How many of `items` a list constructor of `count` elements stores:
      all `count` when there are enough, else every item there is. */
  function StoredCount(count: nat, items: seq<TypedValue>): (n: nat)
    ensures n <= count && n <= |items| && (n == count || n == |items|)
  {
    if count <= |items| then count else |items|
  }

  function ArrayAllocation(elementType: LlvmType, length: Value): Instr {
    Call(ArrayCreate1d, [Value(SizeOf(elementType), Int32), length])
  }

  /** The runtime call that computes the address of an element of the
      array `base`. */
  function ElementAddress(base: Value, index: Value): Instr {
    Call(ArrayGetElementPtr1d, [base, index])
  }

  /** The cast of an element address, the result of log entry `at`, to a
      pointer to the element type. */
  function ElementAddressCast(at: nat, base: Value, index: Value, elementType: LlvmType): Instr {
    BitCast(ResultOf(at, ElementAddress(base, index)), PointerTo(elementType))
  }

  /** The 32-bit range of a C# int. */
  predicate IsInt(n: int) {
    -0x8000_0000 <= n <= ArraySpec.IntMaxValue
  }

  class ArrayValue {
    const ctx: GenerationContext
    const qsElementType: QsType
    const llvmElementType: LlvmType
    /** The opaque array pointer type on the heap, a native array type on
        the stack. */
    const llvmType: LlvmType
    const length: Cached<Value>
    /** The array handle; for a stack array, the aggregate that every store
        to an element replaces. */
    var value: Value

    predicate Valid() {
      && length.ctx == ctx && !length.hasStore
      && (llvmType == ArrayPointer || (llvmType.NativeArray? && llvmType.element == llvmElementType && IsLong(llvmType.length)))
    }

    /** The length constructor once its representation is known: a null
        aggregate on the stack, a runtime allocation on the heap, registered
        with the scope manager if asked. */
    constructor Build(lengthValue: Value, elementType: QsType, ctx: GenerationContext, allocOnStack: bool, register: bool)
      requires ctx.Valid()
      requires ArraySpec.ArrayType(ctx.lowerType(elementType, allocOnStack), lengthValue, allocOnStack).Ok?
      modifies ctx`log, ctx`scopeCalls, ctx`marks
      ensures Valid() && this.ctx == ctx && qsElementType == elementType
      ensures llvmElementType == ctx.lowerType(elementType, allocOnStack)
      ensures llvmType == ArraySpec.ArrayType(llvmElementType, lengthValue, allocOnStack).value
      ensures fresh(length) && length.Entry() == CacheSpec.Entry(ctx.currentBranch, Some(lengthValue))
      ensures allocOnStack ==>
        value == NullValue(llvmType) && ctx.log == old(ctx.log) && ctx.scopeCalls == old(ctx.scopeCalls)
      ensures !allocOnStack ==>
        && value == ResultOf(|old(ctx.log)|, ArrayAllocation(llvmElementType, lengthValue))
        && ctx.log == old(ctx.log) + [ArrayAllocation(llvmElementType, lengthValue)]
        && ctx.scopeCalls == old(ctx.scopeCalls) + (if register then [RegisterValue(this)] else [])
      ensures ctx.marks == old(ctx.marks) + (if !allocOnStack && register then [|old(ctx.log)| + 1] else [])
    {
      this.ctx := ctx;
      qsElementType := elementType;
      var elem := ctx.lowerType(elementType, allocOnStack);
      llvmElementType := elem;
      var cell := new Cached(Some(lengthValue), ctx, false);
      length := cell;
      var t := ArraySpec.ArrayType(elem, lengthValue, allocOnStack).value;
      ArraySpec.StackArrayKeepsItsCount(elem, lengthValue);
      llvmType := t;
      if allocOnStack {
        value := NullValue(t);
      } else {
        // The length cell was just seeded in the current branch, so the
        // length the allocation asks for is served from it.
        assert cell.IsCached();
        var h := ctx.Emit(ArrayAllocation(elem, lengthValue));
        value := h;
      }
      new;
      if !allocOnStack && register {
        ctx.Register(this);
      }
    }

    /** The wrapping constructor once the handle's type is known to be a
        native array or the opaque array pointer; nothing is emitted. */
    constructor Wrap(handle: Value, elementType: QsType, ctx: GenerationContext)
      requires handle.ty == ArrayPointer || (handle.ty.NativeArray? && IsLong(handle.ty.length))
      ensures Valid() && this.ctx == ctx && qsElementType == elementType && value == handle && llvmType == handle.ty
      ensures handle.ty.NativeArray? ==>
        llvmElementType == handle.ty.element && length.Entry() == CacheSpec.Entry(ctx.currentBranch, Some(CreateConstant(handle.ty.length)))
      ensures !handle.ty.NativeArray? ==>
        llvmElementType == ctx.lowerType(elementType, false) && length.Entry() == CacheSpec.Entry(ctx.currentBranch, None)
    {
      this.ctx := ctx;
      qsElementType := elementType;
      llvmType := handle.ty;
      value := handle;
      if handle.ty.NativeArray? {
        llvmElementType := handle.ty.element;
        length := new Cached(Some(CreateConstant(handle.ty.length)), ctx, false);
      } else {
        llvmElementType := ctx.lowerType(elementType, false);
        length := new Cached(None, ctx, false);
      }
    }

    /** The opaque array pointer: the handle of a heap array; a stack array
        has none. */
    function OpaquePointer(): (r: Result<Value, EmissionError>)
      reads this`value
      ensures r.Ok? <==> llvmType == ArrayPointer
      ensures r.Ok? ==> r.value == value
      ensures r.Err? ==> r.error == NoOpaquePointerOnStack
    {
      ArraySpec.OpaquePointerOf(llvmType, value)
    }

    /** The length: the constant of the native type for a stack array; for a
        heap array the cached length, or a runtime size query on the opaque
        pointer, which is then cached. */
    method Length() returns (n: Value)
      requires Valid()
      modifies length, ctx`log
      ensures llvmType.NativeArray? ==>
        n == ArraySpec.StackLength(llvmType) && ctx.log == old(ctx.log) && length.Entry() == old(length.Entry())
      ensures !llvmType.NativeArray? ==>
        && (length.Entry(), Ok(n)) == CacheSpec.Load(old(length.Entry()), false, ctx.Branches(),
             Ok(ResultOf(|old(ctx.log)|, Call(ArrayGetSize1d, [value]))))
        && ctx.log == old(ctx.log) + (if old(length.IsCached()) then [] else [Call(ArrayGetSize1d, [value])])
    {
      if llvmType.NativeArray? {
        n := ArraySpec.StackLength(llvmType);
      } else {
        var r := length.Load(Emit(Call(ArrayGetSize1d, [OpaquePointer().value]), h => h));
        n := r.value;
      }
    }

    /** The number of elements when the length is a usable constant. A heap
        array whose length had to be queried from the runtime has none. */
    method Count() returns (c: Option<nat>)
      requires Valid()
      modifies length, ctx`log
      ensures c == old(KnownCount())
      ensures llvmType.NativeArray? ==>
        && c == (if llvmType.length < ArraySpec.IntMaxValue then Some(llvmType.length) else None)
        && ctx.log == old(ctx.log) && length.Entry() == old(length.Entry())
      ensures !llvmType.NativeArray? && old(length.IsCached()) ==>
        c == ArraySpec.AsConstant(old(length.payload.value)) && ctx.log == old(ctx.log) && length.Entry() == old(length.Entry())
      ensures !llvmType.NativeArray? && !old(length.IsCached()) ==>
        c == None && ctx.log == old(ctx.log) + [Call(ArrayGetSize1d, [value])]
    {
      var n := Length();
      c := ArraySpec.AsConstant(n);
      if llvmType.NativeArray? {
        ArraySpec.ConstantRoundTrip(llvmType.length);
      }
    }

    /** The pointer to the element at `index`: on the heap an address from
        the runtime, cast to the element pointer type; on the stack the
        element of the aggregate, which needs a constant index. */
    method GetArrayElementPointer(index: Value) returns (r: Result<PointerValue, EmissionError>)
      requires Valid()
      modifies ctx`log
      ensures r.Ok? ==>
        && fresh(r.value) && fresh(r.value.cachedValue) && r.value.Valid() && r.value.ctx == ctx
        && r.value.qsType == qsElementType && r.value.llvmType == llvmElementType
        && r.value.cachedValue.Entry() == CacheSpec.Entry(ctx.currentBranch, None)
      ensures llvmType == ArrayPointer ==>
        && r.Ok?
        && ctx.log == old(ctx.log) + [ElementAddress(value, index), ElementAddressCast(|old(ctx.log)|, value, index, llvmElementType)]
        && r.value.slot == Address(ResultOf(|old(ctx.log)| + 1, ElementAddressCast(|old(ctx.log)|, value, index, llvmElementType)))
      ensures llvmType != ArrayPointer ==>
        && ctx.log == old(ctx.log)
        && (ArraySpec.AsConstant(index).None? ==> r == Err(IndexNotConstant))
        && (ArraySpec.AsConstant(index).Some? ==> r.Ok? && r.value.slot == ArrayElement(this, ArraySpec.AsConstant(index).value))
    {
      if llvmType == ArrayPointer {
        var address := ctx.Emit(ElementAddress(OpaquePointer().value, index));
        var typed := ctx.Emit(BitCast(address, PointerTo(llvmElementType)));
        var p := new PointerValue.AtAddress(Some(typed), qsElementType, llvmElementType, ctx);
        r := Ok(p);
      } else {
        var k := ArraySpec.AsConstant(index);
        if k.None? {
          r := Err(IndexNotConstant);
        } else {
          var p := new PointerValue.InAggregate(qsElementType, llvmElementType, ctx, ArrayElement(this, k.value));
          r := Ok(p);
        }
      }
    }

    /** The element at `index`, loaded through a new pointer, which always
        reloads. */
    method GetArrayElement(index: Value) returns (r: Result<TypedValue, EmissionError>)
      requires Valid()
      modifies ctx`log
      ensures llvmType == ArrayPointer ==>
        var address := ResultOf(|old(ctx.log)| + 1, ElementAddressCast(|old(ctx.log)|, value, index, llvmElementType));
        && ctx.log == old(ctx.log) + [ElementAddress(value, index), ElementAddressCast(|old(ctx.log)|, value, index, llvmElementType),
                                      Load(llvmElementType, address)]
        && r == Ok(TypedValue(ResultOf(|old(ctx.log)| + 2, Load(llvmElementType, address)), qsElementType))
      ensures llvmType != ArrayPointer ==>
        match ArraySpec.AsConstant(index)
        case None => r == Err(IndexNotConstant) && ctx.log == old(ctx.log)
        case Some(k) =>
          && ctx.log == old(ctx.log) + [ExtractValue(value, k)]
          && r == Ok(TypedValue(ResultOf(|old(ctx.log)|, ExtractValue(value, k)), qsElementType))
    {
      var p := GetArrayElementPointer(index);
      if p.Err? {
        r := Err(p.error);
        return;
      }
      var v := p.value.LoadValue();
      r := Ok(v);
    }

    /** The pointers to the elements at `indices`, in order; when no index
        is given, to all elements, which needs a known count. `owner` tells
        the pointers' content cells apart. */
    method GetArrayElementPointers(indices: seq<int>) returns (r: Result<seq<PointerValue>, EmissionError>, ghost owner: map<Cached<TypedValue>, nat>)
      requires Valid() && forall k :: 0 <= k < |indices| ==> IsInt(indices[k])
      modifies length, ctx`log
      ensures ArraySpec.ElementIndices(indices, old(KnownCount())).Err? ==>
        && r == Err(UnknownLength)
        && ctx.log == old(ctx.log) + (if llvmType.NativeArray? || old(length.IsCached()) then [] else [Call(ArrayGetSize1d, [value])])
      ensures ArraySpec.ElementIndices(indices, old(KnownCount())).Ok? ==>
        var targets := ArraySpec.ElementIndices(indices, old(KnownCount())).value;
        && (r.Ok? <==> llvmType == ArrayPointer || forall k :: 0 <= k < |targets| ==> 0 <= targets[k] < ArraySpec.IntMaxValue)
        && (r.Err? ==> r.error == IndexNotConstant)
        && (r.Ok? ==> |r.value| == |targets| && forall k :: 0 <= k < |targets| ==> PointsTo(ctx.log, r.value[k], targets[k]))
      ensures r.Ok? ==> forall k :: 0 <= k < |r.value| ==>
        r.value[k].cachedValue.payload.None? && r.value[k].cachedValue in owner && owner[r.value[k].cachedValue] == k
      ensures forall c :: c in owner ==> fresh(c)
      ensures GrowsWithoutWrites(old(ctx.log), ctx.log)
    {
      var targets: seq<int>;
      if |indices| != 0 {
        targets := indices;
      } else {
        var c := Count();
        var t := ArraySpec.ElementIndices([], c);
        if t.Err? {
          r, owner := Err(t.error), map[];
          return;
        }
        targets := t.value;
      }
      ghost var counted := ctx.log;
      r, owner := PointersAt(targets);
      GrowsWithoutWritesTransitive(old(ctx.log), counted, ctx.log);
    }

    /** A new pointer to element `idx`, addressed through an i64 constant. */
    method PointerAt(idx: int) returns (r: Result<PointerValue, EmissionError>)
      requires Valid() && IsInt(idx)
      modifies ctx`log
      ensures r.Ok? <==> llvmType == ArrayPointer || 0 <= idx < ArraySpec.IntMaxValue
      ensures r.Err? ==> r.error == IndexNotConstant
      ensures r.Ok? ==>
        && fresh(r.value.cachedValue) && r.value.cachedValue.payload.None? && PointsTo(ctx.log, r.value, idx)
      ensures GrowsWithoutWrites(old(ctx.log), ctx.log)
    {
      ArraySpec.ConstantRoundTrip(idx);
      r := GetArrayElementPointer(CreateConstant(idx));
    }

    /** The element pointers for `targets`, in order, up to the first index
        a stack array cannot address. */
    method PointersAt(targets: seq<int>) returns (r: Result<seq<PointerValue>, EmissionError>, ghost owner: map<Cached<TypedValue>, nat>)
      requires Valid() && forall k :: 0 <= k < |targets| ==> IsInt(targets[k])
      modifies ctx`log
      ensures r.Ok? <==> llvmType == ArrayPointer || forall k :: 0 <= k < |targets| ==> 0 <= targets[k] < ArraySpec.IntMaxValue
      ensures r.Err? ==> r.error == IndexNotConstant
      ensures r.Ok? ==> |r.value| == |targets| && forall k :: 0 <= k < |targets| ==> PointsTo(ctx.log, r.value[k], targets[k])
      ensures r.Ok? ==> forall k :: 0 <= k < |r.value| ==>
        r.value[k].cachedValue.payload.None? && r.value[k].cachedValue in owner && owner[r.value[k].cachedValue] == k
      ensures forall c :: c in owner ==> fresh(c)
      ensures GrowsWithoutWrites(old(ctx.log), ctx.log)
    {
      owner := map[];
      var ps: seq<PointerValue> := [];
      while |ps| < |targets|
        invariant |ps| <= |targets|
        invariant GrowsWithoutWrites(old(ctx.log), ctx.log)
        invariant forall k :: 0 <= k < |ps| ==> PointsTo(ctx.log, ps[k], targets[k])
        invariant forall k :: 0 <= k < |ps| ==> ps[k].cachedValue in owner && owner[ps[k].cachedValue] == k
        invariant forall c :: c in owner ==> fresh(c) && c.payload.None?
        invariant llvmType != ArrayPointer ==> forall k :: 0 <= k < |ps| ==> 0 <= targets[k] < ArraySpec.IntMaxValue
      {
        ghost var before := ctx.log;
        var p := NextPointer(ps, targets);
        GrowsWithoutWritesTransitive(old(ctx.log), before, ctx.log);
        if p.Err? {
          r := Err(p.error);
          return;
        }
        owner := owner[p.value.cachedValue := |ps|];
        ps := ps + [p.value];
      }
      r := Ok(ps);
    }

    /** One step of PointersAt: the pointer to the next target, after which
        the earlier pointers still point to their elements. */
    method NextPointer(ps: seq<PointerValue>, targets: seq<int>) returns (r: Result<PointerValue, EmissionError>)
      requires Valid() && |ps| < |targets| && IsInt(targets[|ps|])
      requires forall k :: 0 <= k < |ps| ==> PointsTo(ctx.log, ps[k], targets[k])
      modifies ctx`log
      ensures r.Ok? <==> llvmType == ArrayPointer || 0 <= targets[|ps|] < ArraySpec.IntMaxValue
      ensures r.Err? ==> r.error == IndexNotConstant
      ensures r.Ok? ==>
        && fresh(r.value.cachedValue) && r.value.cachedValue.payload.None?
        && forall k :: 0 <= k <= |ps| ==> PointsTo(ctx.log, (ps + [r.value])[k], targets[k])
      ensures GrowsWithoutWrites(old(ctx.log), ctx.log)
    {
      r := PointerAt(targets[|ps|]);
      if r.Ok? {
        AllPointToGrow(old(ctx.log), ctx.log, ps, targets);
      }
    }

    /** The elements at `indices`, in order, or all elements when no index
        is given: every pointer is made first, then each is loaded. */
    method GetArrayElements(indices: seq<int>) returns (r: Result<seq<TypedValue>, EmissionError>)
      requires Valid() && forall k :: 0 <= k < |indices| ==> IsInt(indices[k])
      modifies length, ctx`log
      ensures ArraySpec.ElementIndices(indices, old(KnownCount())).Err? ==> r == Err(UnknownLength)
      ensures ArraySpec.ElementIndices(indices, old(KnownCount())).Ok? ==>
        var targets := ArraySpec.ElementIndices(indices, old(KnownCount())).value;
        && (r.Ok? <==> llvmType == ArrayPointer || forall k :: 0 <= k < |targets| ==> 0 <= targets[k] < ArraySpec.IntMaxValue)
        && (r.Err? ==> r.error == IndexNotConstant)
        && (r.Ok? ==> |r.value| == |targets|)
      ensures r.Ok? ==> forall k :: 0 <= k < |r.value| ==> r.value[k].qsType == qsElementType
      ensures GrowsWithoutWrites(old(ctx.log), ctx.log)
    {
      var pointers, owner := GetArrayElementPointers(indices);
      if pointers.Err? {
        r := Err(pointers.error);
        return;
      }
      var ps := pointers.value;
      ghost var cells := set k | 0 <= k < |ps| :: ps[k].cachedValue as object;
      assert forall c :: c in cells ==> fresh(c);
      ghost var made := ctx.log;
      var vs := LoadEach(ps, ctx, cells, owner);
      GrowsWithoutWritesTransitive(old(ctx.log), made, ctx.log);
      r := Ok(vs);
    }

    // The public constructors.

    /** The length constructor: refuses a stack array whose length is not a
        constant before emitting anything; otherwise builds the array, whose
        count is then the constant the length reads back as. */
    static method WithLength(lengthValue: Value, elementType: QsType, ctx: GenerationContext, allocOnStack: bool, register: bool)
      returns (r: Result<ArrayValue, EmissionError>)
      requires ctx.Valid()
      modifies ctx`log, ctx`scopeCalls, ctx`marks
      ensures ArraySpec.ArrayType(ctx.lowerType(elementType, allocOnStack), lengthValue, allocOnStack).Err? ==>
        r == Err(LengthNotConstant) && ctx.log == old(ctx.log) && ctx.scopeCalls == old(ctx.scopeCalls)
      ensures ArraySpec.ArrayType(ctx.lowerType(elementType, allocOnStack), lengthValue, allocOnStack).Ok? ==> r.Ok?
      ensures r.Ok? ==>
        && fresh(r.value) && fresh(r.value.length) && r.value.Valid() && r.value.ctx == ctx && r.value.qsElementType == elementType
        && r.value.llvmElementType == ctx.lowerType(elementType, allocOnStack)
        && r.value.llvmType == ArraySpec.ArrayType(r.value.llvmElementType, lengthValue, allocOnStack).value
        && r.value.length.Entry() == CacheSpec.Entry(ctx.currentBranch, Some(lengthValue))
        && r.value.KnownCount() == ArraySpec.AsConstant(lengthValue)
      ensures r.Ok? && allocOnStack ==>
        r.value.value == NullValue(r.value.llvmType) && ctx.log == old(ctx.log) && ctx.scopeCalls == old(ctx.scopeCalls)
      ensures r.Ok? && !allocOnStack ==>
        && r.value.value == ResultOf(|old(ctx.log)|, ArrayAllocation(r.value.llvmElementType, lengthValue))
        && ctx.log == old(ctx.log) + [ArrayAllocation(r.value.llvmElementType, lengthValue)]
        && ctx.scopeCalls == old(ctx.scopeCalls) + (if register then [RegisterValue(r.value)] else [])
      ensures ctx.marks == old(ctx.marks) + (if r.Ok? && !allocOnStack && register then [|old(ctx.log)| + 1] else [])
    {
      if ArraySpec.ArrayType(ctx.lowerType(elementType, allocOnStack), lengthValue, allocOnStack).Err? {
        r := Err(LengthNotConstant);
        return;
      }
      var a := new ArrayValue.Build(lengthValue, elementType, ctx, allocOnStack, register);
      if allocOnStack {
        ArraySpec.StackArrayKeepsItsCount(a.llvmElementType, lengthValue);
        ArraySpec.ConstantRoundTrip(a.llvmType.length);
      }
      r := Ok(a);
    }

    /** The generator constructor: an array of `lengthValue` elements, each
        produced by `getElement` at the loop index `index` and stored inside
        its own scope. Nothing is populated when the count is 0; when the
        count is unknown, the last index is computed at run time. */
    static method FromGenerator(elementType: QsType, lengthValue: Value, getElement: Value -> TypedValue, index: Value,
                                ctx: GenerationContext, allocOnStack: bool, register: bool)
      returns (r: Result<ArrayValue, EmissionError>)
      requires ctx.Valid()
      modifies ctx`log, ctx`scopeCalls, ctx`marks
      ensures ArraySpec.ArrayType(ctx.lowerType(elementType, allocOnStack), lengthValue, allocOnStack).Err? ==>
        r == Err(LengthNotConstant) && ctx.log == old(ctx.log) && ctx.scopeCalls == old(ctx.scopeCalls)
      ensures ArraySpec.ArrayType(ctx.lowerType(elementType, allocOnStack), lengthValue, allocOnStack).Ok? ==>
        (r.Ok? <==> !allocOnStack || ArraySpec.AsConstant(lengthValue) == Some(0) || ArraySpec.AsConstant(index).Some?)
      ensures r.Err? && ArraySpec.ArrayType(ctx.lowerType(elementType, allocOnStack), lengthValue, allocOnStack).Ok? ==>
        r.error == IndexNotConstant
      ensures r.Ok? ==> fresh(r.value) && r.value.Valid() && r.value.ctx == ctx && r.value.qsElementType == elementType
      ensures r.Ok? ==>
        && |old(ctx.log)| <= |ctx.log| && ctx.log[..|old(ctx.log)|] == old(ctx.log)
        && var ws := Written(ctx.log[|old(ctx.log)|..]);
        && (ArraySpec.AsConstant(lengthValue) == Some(0) ==> ws == [])
        && (ArraySpec.AsConstant(lengthValue) != Some(0) ==>
             |ws| == 1 && ws[0].value == getElement(index).handle && r.value.ElementTarget(ctx.log, ws[0].target, index))
      ensures r.Ok? ==>
        ctx.scopeCalls == old(ctx.scopeCalls) + (if !allocOnStack && register then [RegisterValue(r.value)] else [])
                          + (if ArraySpec.AsConstant(lengthValue) == Some(0) then [] else [OpenScope, CloseScope(getElement(index))])
      ensures r.Ok? && !allocOnStack && ArraySpec.AsConstant(lengthValue).None? ==>
        |old(ctx.log)| + 1 < |ctx.log| && ctx.log[|old(ctx.log)| + 1] == Sub(lengthValue, CreateConstant(1))
      ensures r.Err? && ArraySpec.ArrayType(ctx.lowerType(elementType, allocOnStack), lengthValue, allocOnStack).Ok? ==>
        ctx.scopeCalls == old(ctx.scopeCalls) + [OpenScope]
      ensures ArraySpec.ArrayType(ctx.lowerType(elementType, allocOnStack), lengthValue, allocOnStack).Err? ==> ctx.marks == old(ctx.marks)
      ensures ArraySpec.ArrayType(ctx.lowerType(elementType, allocOnStack), lengthValue, allocOnStack).Ok? &&
              ArraySpec.AsConstant(lengthValue) == Some(0) ==>
        ctx.marks == old(ctx.marks) + (if !allocOnStack && register then [|old(ctx.log)| + 1] else [])
      ensures ArraySpec.ArrayType(ctx.lowerType(elementType, allocOnStack), lengthValue, allocOnStack).Ok? &&
              ArraySpec.AsConstant(lengthValue) != Some(0) ==>
        var openedAt := (if allocOnStack then 0 else 1) + (if ArraySpec.AsConstant(lengthValue).None? then 1 else 0) + |old(ctx.log)|;
        ctx.marks == old(ctx.marks) + (if !allocOnStack && register then [|old(ctx.log)| + 1] else []) + [openedAt]
                     + (if r.Ok? then [|ctx.log|] else [])
      ensures r.Ok? && allocOnStack && ArraySpec.AsConstant(lengthValue) == Some(0) ==> Holds(ctx.log, r.value.value) == Some(map[])
      ensures r.Ok? && allocOnStack && ArraySpec.AsConstant(lengthValue) != Some(0) ==>
        && ArraySpec.AsConstant(index).Some?
        && Holds(ctx.log, r.value.value) == Some(map[ArraySpec.AsConstant(index).value := getElement(index).handle])
    {
      r := WithLength(lengthValue, elementType, ctx, allocOnStack, register);
      if r.Err? {
        return;
      }
      assert r.value.llvmType == ArrayPointer ==> r.value.length.IsCached();
      NoWritesWithoutStores(ctx.log[|old(ctx.log)|..]);
      var populated := r.value.Populate(getElement, index, old(ctx.log));
      if populated.Fail? {
        r := Err(populated.error);
      } else if allocOnStack && ArraySpec.AsConstant(lengthValue) != Some(0) {
        assert map[][ArraySpec.AsConstant(index).value := getElement(index).handle]
            == map[ArraySpec.AsConstant(index).value := getElement(index).handle];
      }
    }

    /** The population step of the generator constructor, unless the count
        is 0: the last index when the count is unknown, then, inside a scope
        of its own, the element `getElement` produces at `index` stored
        through the pointer to that index. */
    method Populate(getElement: Value -> TypedValue, index: Value, ghost since: seq<Instr>) returns (r: Outcome<EmissionError>)
      requires Valid() && ctx.Valid() && (llvmType == ArrayPointer ==> length.IsCached())
      requires GrowsWithoutWrites(since, ctx.log)
      modifies this`value, length, ctx`log, ctx`scopeCalls, ctx`marks
      ensures old(KnownCount()) == Some(0) ==>
        r.Pass? && ctx.log == old(ctx.log) && ctx.scopeCalls == old(ctx.scopeCalls) && value == old(value)
      ensures old(KnownCount()) != Some(0) ==> (r.Pass? <==> llvmType == ArrayPointer || ArraySpec.AsConstant(index).Some?)
      ensures r.Fail? ==> r.error == IndexNotConstant
      ensures r.Pass? && old(KnownCount()) != Some(0) ==>
        && |old(ctx.log)| <= |ctx.log| && ctx.log[..|old(ctx.log)|] == old(ctx.log)
        && (var ws := Written(ctx.log[|since|..]);
            |ws| == 1 && ws[0].value == getElement(index).handle && ElementTarget(ctx.log, ws[0].target, index))
        && ctx.scopeCalls == old(ctx.scopeCalls) + [OpenScope, CloseScope(getElement(index))]
      ensures old(KnownCount()).None? && llvmType == ArrayPointer ==>
        |old(ctx.log)| < |ctx.log| && ctx.log[|old(ctx.log)|] == Sub(old(length.payload.value), CreateConstant(1))
      ensures old(KnownCount()).None? && llvmType != ArrayPointer ==>
        |old(ctx.log)| < |ctx.log| && ctx.log[|old(ctx.log)|] == Sub(ArraySpec.StackLength(llvmType), CreateConstant(1))
      ensures r.Fail? ==> ctx.scopeCalls == old(ctx.scopeCalls) + [OpenScope]
      ensures old(KnownCount()) == Some(0) ==> ctx.marks == old(ctx.marks)
      ensures old(KnownCount()) != Some(0) ==>
        var openedAt := (if old(KnownCount()).None? then 1 else 0) + |old(ctx.log)|;
        ctx.marks == old(ctx.marks) + [openedAt] + (if r.Pass? then [|ctx.log|] else [])
      ensures r.Pass? && old(KnownCount()) != Some(0) && llvmType.NativeArray? && old(Holds(ctx.log, value)).Some? ==>
        Holds(ctx.log, value) == Some(old(Holds(ctx.log, value)).value[ArraySpec.AsConstant(index).value := getElement(index).handle])
    {
      var count := LastIndex();
      if count == Some(0) {
        r := Pass;
        return;
      }
      if Holds(old(ctx.log), value).Some? {
        HoldsGrows(old(ctx.log), ctx.log, value);
      }
      GrowsWithoutWritesTransitive(since, old(ctx.log), ctx.log);
      r := StoreInScope(getElement, index, since);
    }

    /** The count, and, when it is unknown, the last index computed at run
        time as the length minus one. */
    method LastIndex() returns (count: Option<nat>)
      requires Valid() && (llvmType == ArrayPointer ==> length.IsCached())
      modifies length, ctx`log
      ensures count == old(KnownCount()) && length.Entry() == old(length.Entry())
      ensures GrowsWithoutWrites(old(ctx.log), ctx.log)
      ensures count.Some? ==> ctx.log == old(ctx.log)
      ensures count.None? && llvmType == ArrayPointer ==>
        ctx.log == old(ctx.log) + [Sub(old(length.payload.value), CreateConstant(1))]
      ensures count.None? && llvmType != ArrayPointer ==>
        ctx.log == old(ctx.log) + [Sub(ArraySpec.StackLength(llvmType), CreateConstant(1))]
    {
      count := Count();
      if count.None? {
        var n := Length();
        var end := ctx.Emit(Sub(n, CreateConstant(1)));
      }
    }

    /** Inside a scope of its own, the element `getElement` produces at
        `index`, stored through the pointer to that index; the scope is
        closed with the element surviving it. */
    method StoreInScope(getElement: Value -> TypedValue, index: Value, ghost since: seq<Instr>) returns (r: Outcome<EmissionError>)
      requires Valid() && GrowsWithoutWrites(since, ctx.log)
      modifies this`value, ctx`log, ctx`scopeCalls, ctx`marks
      ensures r.Pass? <==> llvmType == ArrayPointer || ArraySpec.AsConstant(index).Some?
      ensures r.Fail? ==> r.error == IndexNotConstant && ctx.log == old(ctx.log)
      ensures |old(ctx.log)| <= |ctx.log| && ctx.log[..|old(ctx.log)|] == old(ctx.log)
      ensures r.Pass? ==>
        && (var ws := Written(ctx.log[|since|..]);
            |ws| == 1 && ws[0].value == getElement(index).handle && ElementTarget(ctx.log, ws[0].target, index))
        && ctx.scopeCalls == old(ctx.scopeCalls) + [OpenScope, CloseScope(getElement(index))]
      ensures r.Fail? ==> ctx.scopeCalls == old(ctx.scopeCalls) + [OpenScope]
      ensures ctx.marks == old(ctx.marks) + [|old(ctx.log)|] + (if r.Pass? then [|ctx.log|] else [])
      ensures r.Pass? && llvmType.NativeArray? && old(Holds(ctx.log, value)).Some? ==>
        Holds(ctx.log, value) == Some(old(Holds(ctx.log, value)).value[ArraySpec.AsConstant(index).value := getElement(index).handle])
    {
      ctx.Open();
      var item := getElement(index);
      r := StoreAt(index, item, since);
      if r.Pass? {
        ctx.Close(item);
      }
    }

    /** Stores `item` through a new pointer to the element at `index`. */
    method StoreAt(index: Value, item: TypedValue, ghost since: seq<Instr>) returns (r: Outcome<EmissionError>)
      requires Valid() && GrowsWithoutWrites(since, ctx.log)
      modifies this`value, ctx`log
      ensures r.Pass? <==> llvmType == ArrayPointer || ArraySpec.AsConstant(index).Some?
      ensures r.Fail? ==> r.error == IndexNotConstant && ctx.log == old(ctx.log)
      ensures |old(ctx.log)| <= |ctx.log| && ctx.log[..|old(ctx.log)|] == old(ctx.log)
      ensures r.Pass? ==> var ws := Written(ctx.log[|since|..]);
        |ws| == 1 && ws[0].value == item.handle && ElementTarget(ctx.log, ws[0].target, index)
      ensures r.Pass? && llvmType.NativeArray? && old(Holds(ctx.log, value)).Some? ==>
        Holds(ctx.log, value) == Some(old(Holds(ctx.log, value)).value[ArraySpec.AsConstant(index).value := item.handle])
    {
      var p := GetArrayElementPointer(index);
      if p.Err? {
        r := Fail(p.error);
        return;
      }
      ghost var addressed := ctx.log;
      ghost var write := p.value.StoreInstr(item);
      ghost var aggregate := value;
      p.value.StoreValue(item);
      if llvmType.NativeArray? && Holds(addressed, aggregate).Some? {
        HoldsInsert(addressed, aggregate, item.handle, ArraySpec.AsConstant(index).value);
      }
      NoWritesWithoutStores(addressed[|old(ctx.log)|..]);
      GrowsWithoutWritesTransitive(since, old(ctx.log), addressed);
      WrittenSinceIsEmpty(since, addressed);
      WrittenStep(|since|, addressed, ctx.log, write);
      r := Pass;
    }

    /** The list constructor: an array of `count` elements, the first
        `count` of `elements` stored in order through the pointers to
        elements 0, 1, ...; when asked, each element's reference count is
        increased right after it is stored. Given fewer elements than
        `count`, the stores stop at the first missing one, which is an
        error. */
    static method FromList(count: nat, elementType: QsType, elements: seq<TypedValue>, ctx: GenerationContext,
                           allocOnStack: bool, register: bool, increase: bool)
      returns (r: Result<ArrayValue, EmissionError>)
      requires ctx.Valid() && count < 0x1_0000_0000
      modifies ctx`log, ctx`scopeCalls, ctx`marks
      ensures count < ArraySpec.IntMaxValue ==> (r.Ok? <==> count <= |elements|)
      ensures count < ArraySpec.IntMaxValue && r.Err? ==> r.error == IndexOutOfRange
      ensures ArraySpec.IntMaxValue <= count && allocOnStack ==>
        r == Err(LengthNotConstant) && ctx.log == old(ctx.log) && ctx.scopeCalls == old(ctx.scopeCalls)
      ensures ArraySpec.IntMaxValue <= count && !allocOnStack ==>
        && r == Err(UnknownLength)
        && ctx.log == old(ctx.log) + [ArrayAllocation(ctx.lowerType(elementType, false), CreateConstant(count))]
        && |ctx.scopeCalls| == |old(ctx.scopeCalls)| + (if register then 1 else 0)
        && ctx.scopeCalls[..|old(ctx.scopeCalls)|] == old(ctx.scopeCalls)
        && (register ==> ctx.scopeCalls[|old(ctx.scopeCalls)|].RegisterValue?)
      ensures r.Ok? ==>
        && fresh(r.value) && r.value.Valid() && r.value.ctx == ctx && r.value.qsElementType == elementType
        && r.value.llvmType == if allocOnStack then NativeArray(ctx.lowerType(elementType, true), count) else ArrayPointer
      ensures count < ArraySpec.IntMaxValue ==>
        var n := StoredCount(count, elements);
        && |old(ctx.log)| <= |ctx.log| && ctx.log[..|old(ctx.log)|] == old(ctx.log)
        && (var ws := Written(ctx.log[|old(ctx.log)|..]);
            && |ws| == n && (forall k :: 0 <= k < n ==> ws[k].value == elements[k].handle)
            && (r.Ok? ==> forall k :: 0 <= k < n ==> r.value.ElementTarget(ctx.log, ws[k].target, CreateConstant(k))))
        && var registered := if !allocOnStack && register then 1 else 0;
        && |old(ctx.scopeCalls)| + registered <= |ctx.scopeCalls|
        && ctx.scopeCalls[..|old(ctx.scopeCalls)|] == old(ctx.scopeCalls)
        && (registered == 1 ==> ctx.scopeCalls[|old(ctx.scopeCalls)|].RegisterValue?)
        && ctx.scopeCalls[|old(ctx.scopeCalls)| + registered..] == (if increase then IncreaseAll(elements[..n]) else [])
      ensures r.Ok? && !allocOnStack && register ==> ctx.scopeCalls[|old(ctx.scopeCalls)|] == RegisterValue(r.value)
      ensures ArraySpec.IntMaxValue <= count ==> ctx.marks == old(ctx.marks) + (if !allocOnStack && register then [|old(ctx.log)| + 1] else [])
      ensures count < ArraySpec.IntMaxValue ==>
        var n := StoredCount(count, elements);
        && |old(ctx.log)| + n <= |ctx.log| && GrowsWithoutWrites(old(ctx.log), ctx.log[..|ctx.log| - n])
        && ctx.marks == old(ctx.marks) + (if !allocOnStack && register then [|old(ctx.log)| + 1] else [])
                        + (if increase then Interleaved(|ctx.log| - n, n) else [])
      ensures r.Ok? && allocOnStack ==> count <= |elements| && Holds(ctx.log, r.value.value) == Some(Fill(elements[..count]))
    {
      ArraySpec.ConstantRoundTrip(count);
      r := WithLength(CreateConstant(count), elementType, ctx, allocOnStack, register);
      if r.Err? {
        assert allocOnStack && ArraySpec.IntMaxValue <= count;
        return;
      }
      ghost var registered := ctx.scopeCalls;
      NoWritesWithoutStores(ctx.log[|old(ctx.log)|..]);
      var a := r.value;
      if allocOnStack {
        assert Holds(ctx.log, a.value) == Some(map[]);
      }
      var stored := a.StoreElements(count, elements, increase, old(ctx.log),
                                    old(ctx.marks) + (if !allocOnStack && register then [|old(ctx.log)| + 1] else []));
      if stored.Fail? {
        r := Err(stored.error);
      } else if allocOnStack {
        FillOverEmpty(elements[..count]);
      }
      assert ctx.scopeCalls[..|registered|] == registered;
    }

    /** The store loop of the list constructor: makes the pointers to all
        `count` elements, then stores `items` in order through them,
        increasing each item's reference count right after storing it when
        asked; with fewer than `count` items it fails at the first missing
        one. The log had grown from `since` without writes; `marks` are the
        positions of the scope-manager calls made so far. */
    method StoreElements(count: nat, items: seq<TypedValue>, increase: bool, ghost since: seq<Instr>, ghost marks: seq<nat>)
      returns (r: Outcome<EmissionError>)
      requires Valid() && count < 0x1_0000_0000 && (llvmType == ArrayPointer ==> length.IsCached())
      requires KnownCount() == if count < ArraySpec.IntMaxValue then Some(count) else None
      requires GrowsWithoutWrites(since, ctx.log) && ctx.marks == marks
      modifies this`value, length, ctx`log, ctx`scopeCalls, ctx`marks
      ensures ArraySpec.IntMaxValue <= count ==>
        r == Fail(UnknownLength) && ctx.log == old(ctx.log) && ctx.scopeCalls == old(ctx.scopeCalls) && ctx.marks == old(ctx.marks)
      ensures count < ArraySpec.IntMaxValue ==> (r.Pass? <==> count <= |items|)
      ensures count < ArraySpec.IntMaxValue && r.Fail? ==> r.error == IndexOutOfRange
      ensures count < ArraySpec.IntMaxValue ==>
        var n := StoredCount(count, items);
        && |old(ctx.log)| <= |ctx.log| && ctx.log[..|old(ctx.log)|] == old(ctx.log)
        && (var ws := Written(ctx.log[|since|..]);
            |ws| == n && forall k :: 0 <= k < n ==> ws[k].value == items[k].handle && ElementTarget(ctx.log, ws[k].target, CreateConstant(k)))
        && ctx.scopeCalls == old(ctx.scopeCalls) + (if increase then IncreaseAll(items[..n]) else [])
      ensures count < ArraySpec.IntMaxValue ==>
        var n := StoredCount(count, items);
        && |since| + n <= |ctx.log| && GrowsWithoutWrites(since, ctx.log[..|ctx.log| - n])
        && ctx.marks == marks + (if increase then Interleaved(|ctx.log| - n, n) else [])
      ensures count < ArraySpec.IntMaxValue && llvmType.NativeArray? && old(Holds(ctx.log, value)).Some? ==>
        var n := StoredCount(count, items);
        Holds(ctx.log, value) == Some(old(Holds(ctx.log, value)).value + Fill(items[..n]))
    {
      var pointers, owner := GetArrayElementPointers([]);
      if pointers.Err? {
        assert ArraySpec.IntMaxValue <= count;
        r := Fail(pointers.error);
        return;
      }
      var ps := pointers.value;
      assert count < ArraySpec.IntMaxValue && |ps| == count;
      var n := StoredCount(count, items);
      ghost var addressed := ctx.log;
      if Holds(old(ctx.log), value).Some? {
        HoldsGrows(old(ctx.log), addressed, value);
      }
      GrowsWithoutWritesTransitive(since, old(ctx.log), addressed);
      StoreInOrder(ps, items, n, increase, owner, since, old(ctx.log), old(ctx.scopeCalls), marks, old(Holds(ctx.log, value)));
      r := if n < count then Fail(IndexOutOfRange) else Pass;
    }

    /** Stores items[k] through ps[k], the pointer to element k, for the
        first `n` elements in order; each store lands in its element, and
        each increase, when asked, follows its store. The log had grown
        from `since` through `before` without writes, so these stores are
        all the writes since `since`; `calls`, `marks` and `held` are the
        scope-manager calls, their positions and the stack array's
        contents before the loop. */
    method StoreInOrder(ps: seq<PointerValue>, items: seq<TypedValue>, n: nat, increase: bool, ghost owner: map<Cached<TypedValue>, nat>,
                        ghost since: seq<Instr>, ghost before: seq<Instr>, ghost calls: seq<ScopeCall>, ghost marks: seq<nat>,
                        ghost held: Option<map<nat, Value>>)
      requires Valid() && n <= |ps| && n <= |items| && n < ArraySpec.IntMaxValue
      requires forall k :: 0 <= k < n ==>
        PointsTo(ctx.log, ps[k], k) && ps[k].cachedValue in owner && owner[ps[k].cachedValue] == k
      requires GrowsWithoutWrites(since, before) && GrowsWithoutWrites(before, ctx.log)
      requires ctx.scopeCalls == calls && ctx.marks == marks
      requires llvmType.NativeArray? && held.Some? ==> Holds(ctx.log, value) == held
      modifies this`value, owner.Keys, ctx`log, ctx`scopeCalls, ctx`marks
      ensures |before| <= |ctx.log| && ctx.log[..|before|] == before
      ensures var ws := Written(ctx.log[|since|..]);
        |ws| == n && forall k :: 0 <= k < n ==> ws[k].value == items[k].handle && ElementTarget(ctx.log, ws[k].target, CreateConstant(k))
      ensures ctx.scopeCalls == calls + (if increase then IncreaseAll(items[..n]) else [])
      ensures |since| + n <= |ctx.log| && GrowsWithoutWrites(since, ctx.log[..|ctx.log| - n])
      ensures ctx.marks == marks + (if increase then Interleaved(|ctx.log| - n, n) else [])
      ensures llvmType.NativeArray? && held.Some? ==> Holds(ctx.log, value) == Some(held.value + Fill(items[..n]))
    {
      if llvmType == ArrayPointer {
        StoreOnHeap(ps[..n], items[..n], increase, owner);
      } else {
        StoreOnStack(ps[..n], items[..n], increase, owner);
      }
      StoresFollowQuietly(since, before, old(ctx.log), ctx.log, n);
    }

    /** StoreInOrder for a heap array: each store goes through the address
        the runtime computed for its element. */
    method StoreOnHeap(ps: seq<PointerValue>, items: seq<TypedValue>, increase: bool, ghost owner: map<Cached<TypedValue>, nat>)
      requires Valid() && llvmType == ArrayPointer && |ps| == |items| < ArraySpec.IntMaxValue
      requires forall k :: 0 <= k < |ps| ==>
        PointsTo(ctx.log, ps[k], k) && ps[k].cachedValue in owner && owner[ps[k].cachedValue] == k
      modifies owner.Keys, ctx`log, ctx`scopeCalls, ctx`marks
      ensures |old(ctx.log)| <= |ctx.log| && ctx.log[..|old(ctx.log)|] == old(ctx.log)
      ensures var ws := Written(ctx.log[|old(ctx.log)|..]);
        |ws| == |items| && forall k :: 0 <= k < |items| ==> ws[k].value == items[k].handle && ElementTarget(ctx.log, ws[k].target, CreateConstant(k))
      ensures ctx.scopeCalls == old(ctx.scopeCalls) + (if increase then IncreaseAll(items) else [])
      ensures |ctx.log| == |old(ctx.log)| + |items|
      ensures ctx.marks == old(ctx.marks) + (if increase then Interleaved(|old(ctx.log)|, |items|) else [])
    {
      StoreEach(ps, items, ctx, owner.Keys, NoHolder, owner, increase);
      StoredInOrder(old(ctx.log), ctx.log, ps, items, Written(ctx.log[|old(ctx.log)|..]));
    }

    /** StoreInOrder for a stack array: each store is an insert into the
        array value at its element's position. */
    method StoreOnStack(ps: seq<PointerValue>, items: seq<TypedValue>, increase: bool, ghost owner: map<Cached<TypedValue>, nat>)
      requires Valid() && llvmType.NativeArray? && |ps| == |items| < ArraySpec.IntMaxValue
      requires forall k :: 0 <= k < |ps| ==>
        PointsTo(ctx.log, ps[k], k) && ps[k].cachedValue in owner && owner[ps[k].cachedValue] == k
      modifies this`value, owner.Keys, ctx`log, ctx`scopeCalls, ctx`marks
      ensures |old(ctx.log)| <= |ctx.log| && ctx.log[..|old(ctx.log)|] == old(ctx.log)
      ensures var ws := Written(ctx.log[|old(ctx.log)|..]);
        |ws| == |items| && forall k :: 0 <= k < |items| ==> ws[k].value == items[k].handle && ElementTarget(ctx.log, ws[k].target, CreateConstant(k))
      ensures ctx.scopeCalls == old(ctx.scopeCalls) + (if increase then IncreaseAll(items) else [])
      ensures |ctx.log| == |old(ctx.log)| + |items|
      ensures ctx.marks == old(ctx.marks) + (if increase then Interleaved(|old(ctx.log)|, |items|) else [])
      ensures old(Holds(ctx.log, value)).Some? ==>
        Holds(ctx.log, value) == Some(old(Holds(ctx.log, value)).value + Fill(items))
    {
      assert forall k :: 0 <= k < |ps| ==> ps[k].slot == ArrayElement(this, k);
      StoreEach(ps, items, ctx, owner.Keys, ArrayHolder(this), owner, increase);
      StackRunHolds(old(ctx.log), ctx.log, ps, items, old(value));
      StoredInOrder(old(ctx.log), ctx.log, ps, items, Written(ctx.log[|old(ctx.log)|..]));
    }

    /** The list constructor over values built from expressions: the
        elements' reference counts are left alone. */
    static method FromBuiltElements(count: nat, elementType: QsType, elements: seq<TypedValue>, ctx: GenerationContext,
                                    allocOnStack: bool, register: bool)
      returns (r: Result<ArrayValue, EmissionError>)
      requires ctx.Valid() && count < 0x1_0000_0000
      modifies ctx`log, ctx`scopeCalls, ctx`marks
      ensures count < ArraySpec.IntMaxValue ==> (r.Ok? <==> count <= |elements|)
      ensures count < ArraySpec.IntMaxValue && r.Err? ==> r.error == IndexOutOfRange
      ensures ArraySpec.IntMaxValue <= count && allocOnStack ==>
        r == Err(LengthNotConstant) && ctx.log == old(ctx.log) && ctx.scopeCalls == old(ctx.scopeCalls)
      ensures ArraySpec.IntMaxValue <= count && !allocOnStack ==>
        && r == Err(UnknownLength)
        && ctx.log == old(ctx.log) + [ArrayAllocation(ctx.lowerType(elementType, false), CreateConstant(count))]
        && |ctx.scopeCalls| == |old(ctx.scopeCalls)| + (if register then 1 else 0)
        && ctx.scopeCalls[..|old(ctx.scopeCalls)|] == old(ctx.scopeCalls)
        && (register ==> ctx.scopeCalls[|old(ctx.scopeCalls)|].RegisterValue?)
      ensures r.Ok? ==>
        && fresh(r.value) && r.value.Valid() && r.value.ctx == ctx && r.value.qsElementType == elementType
        && r.value.llvmType == if allocOnStack then NativeArray(ctx.lowerType(elementType, true), count) else ArrayPointer
      ensures count < ArraySpec.IntMaxValue ==>
        var n := StoredCount(count, elements);
        && |old(ctx.log)| <= |ctx.log| && ctx.log[..|old(ctx.log)|] == old(ctx.log)
        && (var ws := Written(ctx.log[|old(ctx.log)|..]);
            && |ws| == n && (forall k :: 0 <= k < n ==> ws[k].value == elements[k].handle)
            && (r.Ok? ==> forall k :: 0 <= k < n ==> r.value.ElementTarget(ctx.log, ws[k].target, CreateConstant(k))))
        && var registered := if !allocOnStack && register then 1 else 0;
        && |old(ctx.scopeCalls)| + registered <= |ctx.scopeCalls|
        && ctx.scopeCalls[..|old(ctx.scopeCalls)|] == old(ctx.scopeCalls)
        && (registered == 1 ==> ctx.scopeCalls[|old(ctx.scopeCalls)|].RegisterValue?)
        && ctx.scopeCalls[|old(ctx.scopeCalls)| + registered..] == []
      ensures r.Ok? && !allocOnStack && register ==> ctx.scopeCalls[|old(ctx.scopeCalls)|] == RegisterValue(r.value)
      ensures ArraySpec.IntMaxValue <= count ==> ctx.marks == old(ctx.marks) + (if !allocOnStack && register then [|old(ctx.log)| + 1] else [])
      ensures count < ArraySpec.IntMaxValue ==>
        var n := StoredCount(count, elements);
        && |old(ctx.log)| + n <= |ctx.log| && GrowsWithoutWrites(old(ctx.log), ctx.log[..|ctx.log| - n])
        && ctx.marks == old(ctx.marks) + (if !allocOnStack && register then [|old(ctx.log)| + 1] else []) + []
      ensures r.Ok? && allocOnStack ==> count <= |elements| && Holds(ctx.log, r.value.value) == Some(Fill(elements[..count]))
    {
      r := FromList(count, elementType, elements, ctx, allocOnStack, register, false);
    }

    /** The list constructor over values already built: each element's
        reference count is increased by one once it is stored. */
    static method FromElements(count: nat, elementType: QsType, elements: seq<TypedValue>, ctx: GenerationContext,
                               allocOnStack: bool, register: bool)
      returns (r: Result<ArrayValue, EmissionError>)
      requires ctx.Valid() && count < 0x1_0000_0000
      modifies ctx`log, ctx`scopeCalls, ctx`marks
      ensures count < ArraySpec.IntMaxValue ==> (r.Ok? <==> count <= |elements|)
      ensures count < ArraySpec.IntMaxValue && r.Err? ==> r.error == IndexOutOfRange
      ensures ArraySpec.IntMaxValue <= count && allocOnStack ==>
        r == Err(LengthNotConstant) && ctx.log == old(ctx.log) && ctx.scopeCalls == old(ctx.scopeCalls)
      ensures ArraySpec.IntMaxValue <= count && !allocOnStack ==>
        && r == Err(UnknownLength)
        && ctx.log == old(ctx.log) + [ArrayAllocation(ctx.lowerType(elementType, false), CreateConstant(count))]
        && |ctx.scopeCalls| == |old(ctx.scopeCalls)| + (if register then 1 else 0)
        && ctx.scopeCalls[..|old(ctx.scopeCalls)|] == old(ctx.scopeCalls)
        && (register ==> ctx.scopeCalls[|old(ctx.scopeCalls)|].RegisterValue?)
      ensures r.Ok? ==>
        && fresh(r.value) && r.value.Valid() && r.value.ctx == ctx && r.value.qsElementType == elementType
        && r.value.llvmType == if allocOnStack then NativeArray(ctx.lowerType(elementType, true), count) else ArrayPointer
      ensures count < ArraySpec.IntMaxValue ==>
        var n := StoredCount(count, elements);
        && |old(ctx.log)| <= |ctx.log| && ctx.log[..|old(ctx.log)|] == old(ctx.log)
        && (var ws := Written(ctx.log[|old(ctx.log)|..]);
            && |ws| == n && (forall k :: 0 <= k < n ==> ws[k].value == elements[k].handle)
            && (r.Ok? ==> forall k :: 0 <= k < n ==> r.value.ElementTarget(ctx.log, ws[k].target, CreateConstant(k))))
        && var registered := if !allocOnStack && register then 1 else 0;
        && |old(ctx.scopeCalls)| + registered <= |ctx.scopeCalls|
        && ctx.scopeCalls[..|old(ctx.scopeCalls)|] == old(ctx.scopeCalls)
        && (registered == 1 ==> ctx.scopeCalls[|old(ctx.scopeCalls)|].RegisterValue?)
        && ctx.scopeCalls[|old(ctx.scopeCalls)| + registered..] == IncreaseAll(elements[..StoredCount(count, elements)])
      ensures r.Ok? && !allocOnStack && register ==> ctx.scopeCalls[|old(ctx.scopeCalls)|] == RegisterValue(r.value)
      ensures ArraySpec.IntMaxValue <= count ==> ctx.marks == old(ctx.marks) + (if !allocOnStack && register then [|old(ctx.log)| + 1] else [])
      ensures count < ArraySpec.IntMaxValue ==>
        var n := StoredCount(count, elements);
        && |old(ctx.log)| + n <= |ctx.log| && GrowsWithoutWrites(old(ctx.log), ctx.log[..|ctx.log| - n])
        && ctx.marks == old(ctx.marks) + (if !allocOnStack && register then [|old(ctx.log)| + 1] else []) + Interleaved(|ctx.log| - n, n)
      ensures r.Ok? && allocOnStack ==> count <= |elements| && Holds(ctx.log, r.value.value) == Some(Fill(elements[..count]))
    {
      r := FromList(count, elementType, elements, ctx, allocOnStack, register, true);
    }

    /** The wrapping constructor: a native array keeps its type and its
        length; the opaque array pointer gets the lowered element type and
        an empty length cache; any other handle is refused. */
    static method FromHandle(handle: Value, elementType: QsType, ctx: GenerationContext) returns (r: Result<ArrayValue, EmissionError>)
      requires handle.ty.NativeArray? ==> handle.ty.length < 0x1_0000_0000
      ensures r.Ok? <==> handle.ty.NativeArray? || IsArray(handle.ty)
      ensures r.Err? ==> r.error == ExpectingOpaqueArray
      ensures r.Ok? ==>
        && fresh(r.value) && r.value.Valid() && r.value.ctx == ctx && r.value.qsElementType == elementType
        && r.value.value == handle && r.value.llvmType == handle.ty
      ensures r.Ok? ==>
        r.value.KnownCount() == if handle.ty.NativeArray? && handle.ty.length < ArraySpec.IntMaxValue then Some(handle.ty.length) else None
    {
      if handle.ty.NativeArray? || IsArray(handle.ty) {
        var a := new ArrayValue.Wrap(handle, elementType, ctx);
        r := Ok(a);
      } else {
        r := Err(ExpectingOpaqueArray);
      }
    }

    /** `p` is a valid pointer to the element at `idx`: on the stack the
        element of the aggregate, on the heap the cast address the runtime
        computed for the constant `idx`. */
    ghost predicate PointsTo(log: seq<Instr>, p: PointerValue, idx: int)
      reads this`value
    {
      && p.Valid() && p.ctx == ctx && p.qsType == qsElementType && p.llvmType == llvmElementType
      && if llvmType.NativeArray? then 0 <= idx && p.slot == ArrayElement(this, idx)
         else IsLong(idx) && p.slot.Address? && HeapAddress(log, value, p.slot.pointer, CreateConstant(idx), llvmElementType)
    }

    /** A write to `target` lands in the element at `index`: on the stack
        the position the constant index names, on the heap the cast address
        the runtime computed for `index`, as `log` records it. */
    ghost predicate ElementTarget(log: seq<Instr>, target: Target, index: Value)
      reads this`value
    {
      if llvmType.NativeArray? then ArraySpec.AsConstant(index).Some? && target == Into(ArraySpec.AsConstant(index).value)
      else target.Through? && HeapAddress(log, value, target.pointer, index, llvmElementType)
    }

    /** A store through the pointer to element `idx` lands in that element. */
    lemma PointsToTarget(log: seq<Instr>, p: PointerValue, idx: nat)
      requires PointsTo(log, p, idx) && idx < ArraySpec.IntMaxValue
      ensures ElementTarget(log, p.Destination(), CreateConstant(idx))
    {
      ArraySpec.ConstantRoundTrip(idx);
    }

    /** The stores of the list constructor, as the store loop reports them,
        land in elements 0, 1, ... in order. */
    lemma StoredInOrder(before: seq<Instr>, log: seq<Instr>, ps: seq<PointerValue>, items: seq<TypedValue>, ws: seq<Write>)
      requires |ps| == |items| == |ws| && |ps| < ArraySpec.IntMaxValue
      requires |before| <= |log| && log[..|before|] == before
      requires forall k :: 0 <= k < |ps| ==>
        if llvmType.NativeArray? then ps[k].slot == ArrayElement(this, k) else PointsTo(before, ps[k], k)
      requires forall k :: 0 <= k < |ps| ==> ws[k] == Write(items[k].handle, ps[k].Destination())
      ensures forall k :: 0 <= k < |ps| ==> ws[k].value == items[k].handle && ElementTarget(log, ws[k].target, CreateConstant(k))
    {
      forall k | 0 <= k < |ps|
        ensures ElementTarget(log, ws[k].target, CreateConstant(k))
      {
        if llvmType.NativeArray? {
          ArraySpec.ConstantRoundTrip(k);
        } else {
          PointsToGrows(before, log, ps[k], k);
          PointsToTarget(log, ps[k], k);
        }
      }
    }

    /** Stores through the pointers to elements 0, 1, ... of a stack array,
        as the store loop reports them, leave it holding the items at those
        elements over what it held before. */
    lemma StackRunHolds(before: seq<Instr>, log: seq<Instr>, ps: seq<PointerValue>, items: seq<TypedValue>, from: Value)
      requires llvmType.NativeArray? && |before| <= |log| && log[..|before|] == before
      requires |ps| == |items| && forall k :: 0 <= k < |ps| ==> ps[k].slot == ArrayElement(this, k)
      requires InsertsInto(ps, ArrayHolder(this)) ==> InsertRun(log, |before|, from, value)
      requires var ws := Written(log[|before|..]);
        |ws| == |items| && forall k :: 0 <= k < |items| ==> ws[k] == Write(items[k].handle, ps[k].Destination())
      ensures Holds(before, from).Some? ==> Holds(log, value) == Some(Holds(before, from).value + Fill(items))
    {
      assert forall k :: 0 <= k < |ps| ==> ps[k].slot == ArrayElement(this, k);
      assert InsertsInto(ps, ArrayHolder(this));
      if Holds(before, from).Some? {
        RunHolds(before, log, from, value, items);
      }
    }

    /** An element pointer keeps pointing to its element as the log grows. */
    lemma PointsToGrows(before: seq<Instr>, log: seq<Instr>, p: PointerValue, idx: int)
      requires |before| <= |log| && log[..|before|] == before
      requires PointsTo(before, p, idx)
      ensures PointsTo(log, p, idx)
    {
      if !llvmType.NativeArray? {
        var j := p.slot.pointer.origin.id;
        assert log[j - 1] == before[j - 1] && log[j] == before[j];
      }
    }

    /** Element pointers keep pointing to their elements as the log grows. */
    lemma AllPointToGrow(before: seq<Instr>, log: seq<Instr>, ps: seq<PointerValue>, targets: seq<int>)
      requires |before| <= |log| && log[..|before|] == before && |ps| <= |targets|
      requires forall k :: 0 <= k < |ps| ==> PointsTo(before, ps[k], targets[k])
      ensures forall k :: 0 <= k < |ps| ==> PointsTo(log, ps[k], targets[k])
    {
      forall k | 0 <= k < |ps|
        ensures PointsTo(log, ps[k], targets[k])
      {
        PointsToGrows(before, log, ps[k], targets[k]);
      }
    }

    /** The number of elements Count would report now, without emitting. */
    function KnownCount(): Option<nat>
      reads length`branch, length`payload, ctx`currentBranch, ctx`openBranches, ctx`withinLoop, ctx`currentLoop
    {
      if llvmType.NativeArray? then (if llvmType.length < ArraySpec.IntMaxValue then Some(llvmType.length) else None)
      else if CacheSpec.IsCached(length.Entry(), length.hasStore, ctx.Branches()) then ArraySpec.AsConstant(length.payload.value)
      else None
    }

    /** The count Count would report is below int.MaxValue and is the usable
        constant of the length Length would return: the native type's length
        on the stack, the cached length on the heap. */
    lemma KnownCountReadsLength()
      ensures KnownCount().Some? ==> KnownCount().value < ArraySpec.IntMaxValue
      ensures llvmType.NativeArray? && IsLong(llvmType.length) ==>
        KnownCount() == ArraySpec.AsConstant(ArraySpec.StackLength(llvmType))
      ensures !llvmType.NativeArray? && KnownCount().Some? ==>
        length.payload.Some? && KnownCount() == ArraySpec.AsConstant(length.payload.value)
    {
      if llvmType.NativeArray? && IsLong(llvmType.length) {
        ArraySpec.ConstantRoundTrip(llvmType.length);
      }
    }
  }

  /** `a` is the cast address of the element at `index` of the heap array
      `base`, as `log` records it. */
  ghost predicate HeapAddress(log: seq<Instr>, base: Value, a: Value, index: Value, elementType: LlvmType) {
    && a.origin.Instruction?
    && var j := a.origin.id;
    && 1 <= j < |log|
    && log[j - 1] == ElementAddress(base, index)
    && log[j] == ElementAddressCast(j - 1, base, index, elementType)
    && a == ResultOf(j, log[j])
  }

  // ---------------------------------------------------------------------
  // CallableValue

  class CallableValue {
    const qsType: QsType
    const llvmType: LlvmType
    const value: Value

    /** A new callable from its function table: the captured values, if
        any, go into a fresh heap tuple that is neither registered nor
        reference counted, whose opaque pointer the runtime call receives
        (Unit when nothing is captured); the callable registers itself with
        the scope manager. */
    constructor Create(callableType: QsType, table: Value, managementTable: Value, captured: seq<TypedValue>, ctx: GenerationContext)
      requires ctx.Valid()
      modifies ctx`log, ctx`scopeCalls, ctx`marks
      ensures qsType == callableType && llvmType == CallablePointer
      ensures ctx.scopeCalls == old(ctx.scopeCalls) + [RegisterValue(this)] && ctx.marks == old(ctx.marks) + [|ctx.log|]
      ensures captured == [] ==>
        && ctx.log == old(ctx.log) + [Call(CallableCreate, [table, managementTable, UnitValue])]
        && value == ResultOf(|old(ctx.log)|, Call(CallableCreate, [table, managementTable, UnitValue]))
      ensures captured != [] ==>
        var capture := ResultOf(|old(ctx.log)|, TupleAllocation(StructType(LlvmTypes(captured))));
        && |old(ctx.log)| < |ctx.log| && ctx.log[|old(ctx.log)|] == TupleAllocation(StructType(LlvmTypes(captured)))
        && ctx.log[|ctx.log| - 1] == Call(CallableCreate, [table, managementTable, capture])
        && value == ResultOf(|ctx.log| - 1, ctx.log[|ctx.log| - 1])
        && var ws := Written(ctx.log[|old(ctx.log)|..]);
        && |ws| == |captured|
        && forall k :: 0 <= k < |captured| ==>
             && ws[k].value == captured[k].handle && ws[k].target.Through?
             && FieldAddress(ctx.log, capture, StructType(LlvmTypes(captured)), ws[k].target.pointer, k)
    {
      qsType := callableType;
      llvmType := CallablePointer;
      var argument := CaptureArgument(captured, ctx);
      ghost var captures := ctx.log;
      var h := ctx.Emit(Call(CallableCreate, [table, managementTable, argument]));
      value := h;
      new;
      ctx.Register(this);
      if captured != [] {
        assert ctx.log[|old(ctx.log)|..] == captures[|old(ctx.log)|..] + [Call(CallableCreate, [table, managementTable, argument])];
        WrittenAppend(captures[|old(ctx.log)|..], [Call(CallableCreate, [table, managementTable, argument])]);
        ghost var ws := Written(captures[|old(ctx.log)|..]);
        forall k | 0 <= k < |captured|
          ensures FieldAddress(ctx.log, argument, StructType(LlvmTypes(captured)), ws[k].target.pointer, k)
        {
          FieldAddressGrows(captures, ctx.log, argument, StructType(LlvmTypes(captured)), ws[k].target.pointer, k);
        }
      }
    }

    /** The argument the runtime call receives for the captured values: Unit
        when there are none, otherwise the opaque pointer of a fresh heap
        tuple of them, which is neither registered nor reference counted. */
    static method CaptureArgument(captured: seq<TypedValue>, ctx: GenerationContext) returns (argument: Value)
      requires ctx.Valid()
      modifies ctx`log, ctx`scopeCalls, ctx`marks
      ensures ctx.scopeCalls == old(ctx.scopeCalls) && ctx.marks == old(ctx.marks)
      ensures captured == [] ==> argument == UnitValue && ctx.log == old(ctx.log)
      ensures captured != [] ==>
        && |old(ctx.log)| < |ctx.log| && ctx.log[|old(ctx.log)|] == TupleAllocation(StructType(LlvmTypes(captured)))
        && argument == ResultOf(|old(ctx.log)|, TupleAllocation(StructType(LlvmTypes(captured))))
        && var ws := Written(ctx.log[|old(ctx.log)|..]);
        && |ws| == |captured|
        && forall k :: 0 <= k < |captured| ==>
             && ws[k].value == captured[k].handle && ws[k].target.Through?
             && FieldAddress(ctx.log, argument, StructType(LlvmTypes(captured)), ws[k].target.pointer, k)
    {
      argument := UnitValue;
      if captured != [] {
        var capture := TupleValue.FromBuiltElements(None, captured, ctx, false, false);
        // The allocation seeded the opaque pointer cache in this branch.
        assert CacheSpec.IsCached(capture.opaquePointer.Entry(), false, ctx.Branches());
        ghost var built := ctx.log;
        var pointer := capture.OpaquePointer();
        assert ctx.log == built;
        argument := pointer.value;
      }
    }

    /** A callable wrapping an existing handle; nothing is emitted and
        nothing registered. */
    constructor Wrap(value: Value, qsType: QsType)
      ensures this.value == value && this.qsType == qsType && llvmType == CallablePointer
    {
      this.qsType := qsType;
      llvmType := CallablePointer;
      this.value := value;
    }
  }
}
