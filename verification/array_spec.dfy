/** The length and representation rules of an array value: which handles
    count as a known length, which representation a length allows, what a
    stack array reports as its length, and which element indices a request
    for all elements enumerates. */
module ArraySpec {
  import opened Wrappers
  import opened Llvm

  /** C#'s int.MaxValue. */
  const IntMaxValue: int := 0x7FFF_FFFF

  /** A handle is a usable constant when it is an integer constant whose
      zero-extended value is below int.MaxValue. */
  function AsConstant(v: Value): (c: Option<nat>)
    ensures c.Some? ==> v.origin.ConstantInt? && c.value == v.origin.zeroExtended && c.value < IntMaxValue
    ensures v.origin.ConstantInt? && v.origin.zeroExtended < IntMaxValue ==> c.Some?
  {
    if v.origin.ConstantInt? && v.origin.zeroExtended < IntMaxValue then Some(v.origin.zeroExtended) else None
  }

  /** An i64 constant made from `n` reads back as `n` exactly when `n` is a
      non-negative number below int.MaxValue; a negative `n` wraps to a huge
      zero-extended value and is not a usable constant. */
  lemma ConstantRoundTrip(n: int)
    requires IsLong(n)
    ensures AsConstant(CreateConstant(n)) == if 0 <= n < IntMaxValue then Some(n) else None
  {
  }

  /** The LLVM type the length-based constructor gives an array: the opaque
      array pointer on the heap, a native array of the constant length on the
      stack, and an error for a stack array whose length is not constant. */
  function ArrayType(elementType: LlvmType, length: Value, allocOnStack: bool): (r: Result<LlvmType, EmissionError>)
    ensures !allocOnStack ==> r == Ok(ArrayPointer)
    ensures allocOnStack && r.Ok? ==>
      r.value.NativeArray? && r.value.element == elementType && Some(r.value.length) == AsConstant(length)
    ensures r.Err? ==> allocOnStack && AsConstant(length).None? && r.error == LengthNotConstant
  {
    if !allocOnStack then Ok(ArrayPointer)
    else match AsConstant(length)
      case Some(n) => Ok(NativeArray(elementType, n))
      case None => Err(LengthNotConstant)
  }

  /** The length a stack array reports: the constant baked into its type. */
  function StackLength(t: LlvmType): (v: Value)
    requires t.NativeArray? && IsLong(t.length)
  {
    CreateConstant(t.length)
  }

  /** Count invariant of stack arrays: a stack array is created exactly when
      the length is constant, and its reported length then reads back as the
      same count it was created with. */
  lemma StackArrayKeepsItsCount(elementType: LlvmType, length: Value)
    ensures ArrayType(elementType, length, true).Ok? <==> AsConstant(length).Some?
    ensures ArrayType(elementType, length, true).Ok? ==>
      var t := ArrayType(elementType, length, true).value;
      && t.NativeArray? && t.element == elementType
      && IsLong(t.length)
      && AsConstant(StackLength(t)) == AsConstant(length)
  {
    if AsConstant(length).Some? {
      ConstantRoundTrip(AsConstant(length).value);
    }
  }

  /** The indices a request for element pointers enumerates: the given ones,
      or, when none are given, 0 up to the known count; without a known
      count the request is an error. */
  function ElementIndices(indices: seq<int>, count: Option<nat>): (r: Result<seq<int>, EmissionError>)
    ensures |indices| != 0 ==> r == Ok(indices)
    ensures |indices| == 0 && count.Some? && count.value <= IntMaxValue ==>
      r.Ok? && |r.value| == count.value && forall k :: 0 <= k < |r.value| ==> r.value[k] == k
    ensures |indices| == 0 && (count.None? || count.value > IntMaxValue) ==> r == Err(UnknownLength)
  {
    if |indices| != 0 then Ok(indices)
    else if count.Some? && count.value <= IntMaxValue then Ok(seq(count.value, k => k))
    else Err(UnknownLength)
  }

  /** The opaque pointer of an array: its handle on the heap, an error on
      the stack. */
  function OpaquePointerOf(arrayType: LlvmType, handle: Value): (r: Result<Value, EmissionError>)
    ensures r.Ok? <==> IsArray(arrayType)
    ensures r.Ok? ==> r.value == handle
    ensures r.Err? ==> r.error == NoOpaquePointerOnStack
  {
    if IsArray(arrayType) then Ok(handle) else Err(NoOpaquePointerOnStack)
  }
}
