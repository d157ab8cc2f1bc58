/** The vocabulary the value layer works with: LLVM types and values as
    opaque handles, the instructions the layer emits, the Q# types it carries
    along, and the internal errors it raises. */
module Llvm {

  /** The LLVM types the value layer tells apart. */
  datatype LlvmType =
    | IntType(width: nat)
    | DoubleType
    | TuplePointer                              // %Tuple*, also the representation of Unit
    | ArrayPointer                              // %Array*
    | CallablePointer                           // %Callable*
    | StructType(fields: seq<LlvmType>)         // the layout of a typed tuple
    | NativeArray(element: LlvmType, length: nat)  // [n x T], a stack-allocated array
    | PointerTo(target: LlvmType)
    | Named(name: string)                       // qubits, results, strings, ...

  const Int64: LlvmType := IntType(64)
  const Int32: LlvmType := IntType(32)

  /** A pointer to a struct: the typed representation of a heap tuple. */
  predicate IsTypedTuple(t: LlvmType) {
    t.PointerTo? && t.target.StructType?
  }

  /** The opaque tuple pointer type, which Unit shares. */
  predicate IsTupleOrUnit(t: LlvmType) {
    t == TuplePointer
  }

  /** The opaque array pointer type of a heap array. */
  predicate IsArray(t: LlvmType) {
    t == ArrayPointer
  }

  /** Where a handle comes from. An emitted instruction's result is named by
      the instruction's position in the emission log. */
  datatype Origin =
    | ConstantInt(zeroExtended: nat)   // an integer constant, by its zero-extended 64-bit value
    | NullConstant                     // the null (all-zero) value of a type
    | Instruction(id: nat)             // the result of the id-th emitted instruction
    | SizeOf(sized: LlvmType)          // the byte size of a type
    | External(key: int)               // produced outside this layer (parameters, globals)

  /** An LLVM value: an opaque handle together with its native type. */
  datatype Value = Value(origin: Origin, ty: LlvmType) {
    predicate IsNull() {
      origin.NullConstant?
    }
  }

  const TwoTo64: int := 0x1_0000_0000_0000_0000

  /** The range of a C# long. */
  predicate IsLong(n: int) {
    -0x8000_0000_0000_0000 <= n < 0x8000_0000_0000_0000
  }

  /** An i64 constant; a negative number is stored as its two's complement,
      which is what its zero-extended value reads back. */
  function CreateConstant(n: int): (v: Value)
    requires IsLong(n)
    ensures v.ty == Int64 && v.origin.ConstantInt?
    ensures 0 <= n ==> v.origin.zeroExtended == n
    ensures n < 0 ==> v.origin.zeroExtended >= 0x8000_0000_0000_0000
  {
    Value(ConstantInt(if 0 <= n then n else n + TwoTo64), Int64)
  }

  /** The null value of a type (GetNullValue). */
  function NullValue(t: LlvmType): Value {
    Value(NullConstant, t)
  }

  /** The Unit value: the null tuple pointer. */
  const UnitValue: Value := NullValue(TuplePointer)

  /** The runtime library functions this layer calls. */
  datatype RuntimeFunction =
    | TupleCreate
    | ArrayCreate1d
    | ArrayGetSize1d
    | ArrayGetElementPtr1d
    | CallableCreate

  /** The instructions this layer emits, with their operands. */
  datatype Instr =
    | Alloca(slotType: LlvmType)
    | Load(loaded: LlvmType, pointer: Value)
    | Store(stored: Value, pointer: Value)
    | BitCast(source: Value, target: LlvmType)
    | StructElementPointer(structType: LlvmType, base: Value, index: nat)
    | InsertValue(aggregate: Value, element: Value, position: nat)
    | ExtractValue(aggregate: Value, position: nat)
    | Sub(minuend: Value, subtrahend: Value)
    | Call(callee: RuntimeFunction, args: seq<Value>)

  /** The type of what an instruction produces. */
  function ResultType(i: Instr): LlvmType {
    match i
    case Alloca(t) => PointerTo(t)
    case Load(t, _) => t
    case Store(_, _) => Named("void")
    case BitCast(_, t) => t
    case StructElementPointer(s, _, k) =>
      if s.StructType? && k < |s.fields| then PointerTo(s.fields[k]) else Named("invalid")
    case InsertValue(agg, _, _) => agg.ty
    case ExtractValue(agg, k) => ElementType(agg.ty, k)
    case Sub(a, _) => a.ty
    case Call(f, _) => ReturnType(f)
  }

  /** The type of the k-th component of an aggregate. */
  function ElementType(t: LlvmType, k: nat): LlvmType {
    match t
    case StructType(fs) => if k < |fs| then fs[k] else Named("invalid")
    case NativeArray(e, _) => e
    case _ => Named("invalid")
  }

  /** What a runtime function returns. */
  function ReturnType(f: RuntimeFunction): LlvmType {
    match f
    case TupleCreate => TuplePointer
    case ArrayCreate1d => ArrayPointer
    case ArrayGetSize1d => Int64
    case ArrayGetElementPtr1d => PointerTo(IntType(8))
    case CallableCreate => CallablePointer
  }

  /** The handle the instruction at log position `id` produces. */
  function ResultOf(id: nat, i: Instr): (v: Value)
    ensures v.origin == Instruction(id) && v.ty == ResultType(i)
  {
    Value(Instruction(id), ResultType(i))
  }

  /** The Q# types values are tagged with. Building them from the syntax
      tree is not part of this model. */
  datatype QsType =
    | QsInt
    | QsBool
    | QsDouble
    | QsTuple(items: seq<QsType>)
    | QsArray(item: QsType)
    | QsUserDefined(name: string)
    | QsCallable
    | QsOther(name: string)

  /** A built LLVM value along with its Q# type: what is stored into and
      loaded out of a storage slot. */
  datatype TypedValue = TypedValue(handle: Value, qsType: QsType)

  /** The internal errors the value layer raises (InvalidOperationException
      and ArgumentException in the emitter). */
  datatype EmissionError =
    | NoStorageFunction          // a store through a cell built without a store closure
    | TuplePointerUndefined      // neither tuple pointer cache can be resolved
    | LengthNotConstant          // a stack array whose length is not a constant
    | NoOpaquePointerOnStack     // a stack array has no opaque pointer
    | IndexNotConstant           // a stack array element at a non-constant index
    | UnknownLength              // all elements of an array whose length is unknown
    | ExpectingOpaqueArray       // wrapping a handle that is not an array
    | IndexOutOfRange            // a list constructor given fewer elements than its count
}
