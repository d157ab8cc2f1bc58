# The QIR value layer, modelled in Dafny

The QIR emitter of the Q# compiler wraps every LLVM value it handles in a
value object: a pointer to a mutable slot, a tuple, an array or a callable.
These objects hide how a value is represented (a struct held in a register,
a heap tuple reached through an opaque or a typed pointer, a native stack
array or a runtime-managed heap array). They emit the loads, stores, casts
and runtime calls that each access needs. They also avoid emitting an
instruction twice by memoising results in branch-aware cells: a cached
payload is reused only while the branch that produced it is still open and,
for a cell that can be written, only while that branch lies within the
current loop.

This project models that layer. The modules are:

- `CacheSpec`: the memoisation cell as a pure state machine. It covers the
  validity test, load, store, and runs of reads, writes and branch moves.
  It proves that the cell is sound (a stored value is served back) and
  conservative (a stale value is reloaded), and that stores are never
  skipped.
- `TupleSpec`: the opaque/typed pointer duality of a tuple. It covers how
  the caches are seeded from the created handle, how each cache loads from
  the other, the round trips, and what any sequence of pointer requests
  yields and emits.
- `ArraySpec`: the length and representation rules of an array. It covers
  which handles are usable constants, which representation a length
  allows, the length a stack array reports, and the indices a request for
  all elements enumerates.
- `Generation`: the generation context as the value layer sees it. This is
  the branch and loop queries, an instruction log that the emitted
  instructions are appended to, the calls made to the scope manager, and
  type lowering as a parameter.
- `Caching`: the cell `IValue.Cached` as a class. It has a mutable cache
  field, and its `Load` and `Store` are proved against `CacheSpec`.
- `Emission`: the classes `PointerValue`, `TupleValue`, `ArrayValue` and
  `CallableValue`, with their constructors, store loops and accessors.
  Their contracts state what they append to the instruction log, what
  they report to the scope manager, and what their caches hold afterwards.
  Where an operation computes a field or element pointer anew, the contract
  states that nothing is written and what the new pointer addresses, not
  each instruction appended (see "Left out"). Besides the calls to the
  scope manager, the context records, for each call, the length of the log
  when it was made. So contracts state how the calls interleave with the
  emitted instructions: a scope opened before its store, an increase right
  after the store of its item, a registration right after the allocation.

Some modelling choices:

- An emitted instruction's result is named by its index in the log.
- The writes of a log are the store and insert instructions in it, in
  order. Each write records the value written and its destination: the
  pointer a store goes through, or the position an insert fills in an
  aggregate held in a register. The store loops are proved to write the
  given elements in order, each to the destination of its own field or
  element. For a heap tuple that destination is the result of an element
  pointer instruction for that field in the log, computed from the tuple's
  handle or from a chain of bitcasts of it. For a heap array it is the cast
  result of the runtime's element address call for that index.
- An aggregate held in a register (the struct value of an in-register
  tuple, a native stack array) changes only through insert instructions.
  `Holds` reads what such a value contains by following its chain of
  inserts back to the null value. The store loops are proved to leave the
  owner's final value at the end of a chain of inserts, one per store,
  that starts at the value before the loop. So a tuple or stack array
  built from elements holds element k at position k and nothing else.
- A load or store closure is represented by the instruction it would emit.
  For a load closure this is an `Emit` or `Refuse` loader built at the
  moment of the load. For a store closure it is the pointer's `Slot`: an
  address, a field of an in-register tuple, or an element of a stack
  array.
- The code throws exceptions in several places. These become
  `EmissionError` results or outcomes, so that every error path is stated.

## Model

| member | source | states |
|---|---|---|
| CacheSpec.IsCached | src/QsCompiler/QirGeneration/QIR/DataStructures.cs:54-57 | A valid cell holds a payload from an open branch; conversely, in a consistent context, a payload stamped with the current branch is valid |
| CacheSpec.Load | src/QsCompiler/QirGeneration/QIR/DataStructures.cs:62-74 | A valid cell returns its payload and stays unchanged; otherwise the loader's result is returned; a successful load leaves the cell holding the loaded value, a failed one leaves the cell unchanged |
| CacheSpec.Store | src/QsCompiler/QirGeneration/QIR/DataStructures.cs:80-89 | Accepted exactly when the cell has a store closure; an accepted value is then held, stamped with the current branch, and valid in a consistent context; otherwise the "no storage function" error |
| CacheSpec.LoadCachesItsResult | src/QsCompiler/QirGeneration/QIR/DataStructures.cs:62-74 | A successful load returns a present payload; the cell then holds exactly that payload and passes its validity test until the context moves |
| CacheSpec.VisiblePayloadIsServed | src/QsCompiler/QirGeneration/QIR/DataStructures.cs:54-74 | A payload from a branch that stays open (and, inside loops, within the current loop) serves every read of a write-free run without calling the loader |
| CacheSpec.StoreThenReadsHit | src/QsCompiler/QirGeneration/QIR/DataStructures.cs:80-89 | Cache soundness: after a store of v, every read returns v without reloading while no other store happens and the storing branch stays open and within the current loop |
| CacheSpec.StaleEntryIsReloaded | src/QsCompiler/QirGeneration/QIR/DataStructures.cs:54-74 | Cache conservatism: a writable cell whose branch is closed, or outside the current loop while inside a loop, reloads on the next read and caches the fresh value under the current branch |
| CacheSpec.ReadOnlyCellIgnoresLoops | src/QsCompiler/QirGeneration/QIR/DataStructures.cs:54-57 | A cell without a store closure is valid exactly when it holds a payload from an open branch; loops do not matter |
| CacheSpec.StoresAreNeverSkipped | src/QsCompiler/QirGeneration/QIR/DataStructures.cs:80-89 | Over any run, a cell with a store closure performs every write, and one without refuses every write and performs none |
| CacheSpec.SecondReadHits | src/QsCompiler/QirGeneration/QIR/DataStructures.cs:62-74 | Two reads in a row in a consistent context call the loader at most once; the second read returns what the first one returned |
| TupleSpec.Seed | src/QsCompiler/QirGeneration/QIR/DataStructures.cs:281-284 | The created handle seeds at most one of the native value, the opaque cache and the typed cache, and only with itself: the native value exactly when it is a struct value, the opaque cache exactly when it is a non-null opaque tuple pointer, the typed cache exactly when it is a pointer to a struct; a null tuple pointer (Unit) seeds nothing |
| TupleSpec.OpaqueLoader | src/QsCompiler/QirGeneration/QIR/DataStructures.cs:356-360 | The opaque cache's loader succeeds exactly when the typed cache is valid, with an opaque tuple pointer that is the result of the next emitted instruction; otherwise it refuses with "tuple pointer is undefined" |
| TupleSpec.TypedLoader | src/QsCompiler/QirGeneration/QIR/DataStructures.cs:362-366 | The typed cache's loader succeeds exactly when the opaque cache is valid, with a pointer to the struct type that is the result of the next emitted instruction; otherwise it refuses with "tuple pointer is undefined" |
| TupleSpec.TypedRoundTrip | src/QsCompiler/QirGeneration/QIR/DataStructures.cs:356-366 | With a valid typed pointer, deriving the opaque pointer and then the typed pointer gives back the original typed pointer, emitting at most one bitcast and none for the second step |
| TupleSpec.OpaqueRoundTrip | src/QsCompiler/QirGeneration/QIR/DataStructures.cs:356-366 | The same round trip starting from a valid opaque pointer |
| TupleSpec.UnresolvedStaysUnresolved | src/QsCompiler/QirGeneration/QIR/DataStructures.cs:356-366 | When neither cache is valid, every pointer request fails with "tuple pointer is undefined", nothing is emitted and neither cache changes |
| TupleSpec.BothCachedServeEverything | src/QsCompiler/QirGeneration/QIR/DataStructures.cs:356-366 | When both caches are valid, every request is answered from them and nothing is emitted |
| TupleSpec.FirstRequestResolves | src/QsCompiler/QirGeneration/QIR/DataStructures.cs:356-366 | One request to a tuple with a valid cache succeeds, emits at most one bitcast, keeps the tuple resolvable, and leaves both caches valid when it emitted |
| TupleSpec.ResolvedCastsAtMostOnce | src/QsCompiler/QirGeneration/QIR/DataStructures.cs:356-366 | Any sequence of pointer requests to a tuple with a valid cache succeeds in full and emits at most one bitcast in total |
| ArraySpec.AsConstant | src/QsCompiler/QirGeneration/QIR/DataStructures.cs:441-442 | A usable constant is an integer constant whose zero-extended value is below int.MaxValue, and it reads as that value; every such constant is usable |
| ArraySpec.ConstantRoundTrip | src/QsCompiler/QirGeneration/QIR/DataStructures.cs:441-442 | An i64 constant made from n reads back as n exactly when 0 <= n < int.MaxValue; a negative n zero-extends to a huge value and is not a constant |
| ArraySpec.ArrayType | src/QsCompiler/QirGeneration/QIR/DataStructures.cs:479-483 | The opaque array type on the heap; on the stack, a native array of the element type whose length reads back as the constant length; the "length is not a constant" error exactly for a stack array whose length is not a usable constant |
| ArraySpec.StackArrayKeepsItsCount | src/QsCompiler/QirGeneration/QIR/DataStructures.cs:462-484 | A stack array type exists exactly when the length is a usable constant; it is a native array of the element type, and the length it reports reads back as the count it was created with |
| ArraySpec.ElementIndices | src/QsCompiler/QirGeneration/QIR/DataStructures.cs:637-639 | The given indices when there are any; otherwise 0 up to the count in order when the count is known and at most int.MaxValue; otherwise the unknown-length error |
| ArraySpec.OpaquePointerOf | src/QsCompiler/QirGeneration/QIR/DataStructures.cs:457-460 | The handle exactly when the array type is the opaque array pointer; the stack-array error otherwise |
| Generation.HoldsInsert | src/QsCompiler/QirGeneration/QIR/DataStructures.cs:380-381 | Inserting x at position k into an aggregate whose contents are known gives an aggregate holding those contents with x at k |
| Generation.HoldsGrows | src/QsCompiler/QirGeneration/QIR/DataStructures.cs:380-381 | What an aggregate value holds does not change as later instructions are appended |
| Generation.InsertRunStep | src/QsCompiler/QirGeneration/QIR/DataStructures.cs:380-381 | Appending an insert into the end of a chain of inserts extends the chain to the insert's result |
| Generation.HoldsRun | src/QsCompiler/QirGeneration/QIR/DataStructures.cs:380-381 | A chain of inserts putting item k at position k leaves its final value holding the starting contents with item k at position k |
| Generation.RunHolds | src/QsCompiler/QirGeneration/QIR/DataStructures.cs:287-295 | The same for a chain appended to a log whose writes are item k into position k, the form the store loops state |
| Generation.AliasesCast | src/QsCompiler/QirGeneration/QIR/DataStructures.cs:356-366 | A bitcast of a pointer addressing a handle, appended to the log, addresses that handle too |
| Generation.AliasesSelf | src/QsCompiler/QirGeneration/QIR/DataStructures.cs:356-366 | A handle addresses itself, so the pointer a tuple is created with is a pointer to that tuple |
| Generation.AliasesGrows | src/QsCompiler/QirGeneration/QIR/DataStructures.cs:356-366 | A pointer that addresses a handle keeps doing so as later instructions are appended |
| Generation.GenerationContext.IncreaseCounts | src/QsCompiler/QirGeneration/QIR/DataStructures.cs:301-304 | Exactly one reference-count increase per element, in element order, all made at the same point of the log |
| Caching.Cached.constructor | src/QsCompiler/QirGeneration/QIR/DataStructures.cs:41-47 | The cache starts as the current branch paired with the given payload, which may be absent |
| Caching.Cached.IsCached | src/QsCompiler/QirGeneration/QIR/DataStructures.cs:54-57 | A valid cell holds a payload from an open branch; in a consistent context, a payload from the current branch is valid |
| Caching.Cached.Refresh | src/QsCompiler/QirGeneration/QIR/DataStructures.cs:70 | The cache becomes the given payload stamped with the current branch |
| Caching.Cached.Load | src/QsCompiler/QirGeneration/QIR/DataStructures.cs:62-74 | New cache and result agree with CacheSpec.Load; the loader's instruction is emitted exactly when the cell was not valid |
| Caching.Cached.Store | src/QsCompiler/QirGeneration/QIR/DataStructures.cs:80-89 | Accepted exactly when there is a store closure, and then the cache is the value stamped with the current branch; otherwise the store is refused and the cache is unchanged |
| Emission.PointerValue.ReloadInstr | src/QsCompiler/QirGeneration/QIR/DataStructures.cs:166-169 | The load closure's instruction writes nothing |
| Emission.PointerValue.StoreInstr | src/QsCompiler/QirGeneration/QIR/DataStructures.cs:163-164 | The store closure's instruction writes exactly the stored value |
| Emission.PointerValue.AtAddress | src/QsCompiler/QirGeneration/QIR/DataStructures.cs:161-175 | Uses the given pointer and emits nothing; without one, emits exactly one alloca of the element type and uses its result; the cell starts empty and has a store closure |
| Emission.PointerValue.InAggregate | src/QsCompiler/QirGeneration/QIR/DataStructures.cs:185-190 | A pointer with custom load and store closures: emits nothing and has an empty writable cell |
| Emission.PointerValue.MutableVariable | src/QsCompiler/QirGeneration/QIR/DataStructures.cs:197-199 | Emits an alloca, then a store of the initial value to it; the cell then holds that value from the current branch |
| Emission.PointerValue.LoadValue | src/QsCompiler/QirGeneration/QIR/DataStructures.cs:204-205 | Agrees with CacheSpec.Load on the pointer's cell, and reloads through the slot only when the cell was not valid |
| Emission.PointerValue.StoreValue | src/QsCompiler/QirGeneration/QIR/DataStructures.cs:210-211 | Emits exactly the slot's store instruction; the cell holds the value from the current branch, and an in-register owner's aggregate is replaced by the insert's result |
| Emission.StoreEach | src/QsCompiler/QirGeneration/QIR/DataStructures.cs:287-295 | Item k is written to the destination of pointer k, in order: the address it holds, or the field or element position of an in-register owner. Each pointer's cell then holds its item from the current branch, and there is one reference-count increase per item when asked, each made right after the store of its item. When every pointer is a position of one in-register aggregate, the aggregate's final value ends a chain of inserts, one per store, starting at its value before the loop |
| Emission.StoreNext | src/QsCompiler/QirGeneration/QIR/DataStructures.cs:289-293 | One iteration of that loop: the loop's invariant (cells stamped, writes so far to their destinations, the increases so far, the chain of inserts so far) holds for one more item |
| Emission.StoreOne | src/QsCompiler/QirGeneration/QIR/DataStructures.cs:525-529 | One step of a store loop: appends exactly the pointer's store instruction, whose single write puts the item at the pointer's destination; the cell holds the item; the reference-count increase when asked, made after that store; a chain of inserts into the owner's aggregate grows by this insert |
| Emission.LoadEach | src/QsCompiler/QirGeneration/QIR/DataStructures.cs:427-428 | One value per pointer, each now held in that pointer's cell: the value the cell held when it was valid, otherwise a reloaded value typed as its pointer; nothing is written |
| Emission.TupleValue.LlvmType | src/QsCompiler/QirGeneration/QIR/DataStructures.cs:246-249 | The struct type for an in-register tuple, otherwise the pointer to the struct type, which is a typed tuple pointer whenever the layout is a struct |
| Emission.TupleValue.Build | src/QsCompiler/QirGeneration/QIR/DataStructures.cs:270-285 | Emits the tuple allocation only when allocating, and registers only when asked to, right after the allocation; the native value, the opaque cache and the typed cache are seeded from the created handle as TupleSpec.Seed says; one empty read-only cell per field |
| Emission.TupleValue.FieldCaches | src/QsCompiler/QirGeneration/QIR/DataStructures.cs:368-369 | One fresh, empty cell without a store closure per field, each tied to its field |
| Emission.TupleValue.StoreFields | src/QsCompiler/QirGeneration/QIR/DataStructures.cs:287-295 | The private constructor's loop writes element k to field k, in order: position k of the struct value in a register, or through the address of field k computed in the log on the heap. Afterwards every field pointer's cell is valid and its content cell holds element k from the current branch; no scope-manager call. In a register, a struct value that held some fields before holds them overwritten by the elements |
| Emission.TupleValue.StoreThrough | src/QsCompiler/QirGeneration/QIR/DataStructures.cs:290-294 | Storing through the cached field pointers writes item k to field k, in order, and each content cell then holds its item from the current branch; in a register, the struct value then holds item k at position k over what it held before |
| Emission.TupleValue.StoredIntoFields | src/QsCompiler/QirGeneration/QIR/DataStructures.cs:290-294 | Writes of item k through the pointer to field k land in field k: position k in a register, the address of field k on the heap |
| Emission.TupleValue.OpaquePointer | src/QsCompiler/QirGeneration/QIR/DataStructures.cs:356-360 | Agrees with TupleSpec.LoadOpaque and emits what TupleSpec.OpaqueEmits says |
| Emission.TupleValue.TypedPointer | src/QsCompiler/QirGeneration/QIR/DataStructures.cs:362-366 | Agrees with TupleSpec.LoadTyped and emits what TupleSpec.TypedEmits says |
| Emission.TupleValue.GetValue | src/QsCompiler/QirGeneration/QIR/DataStructures.cs:242 | The struct value of an in-register tuple, with nothing emitted; otherwise the typed pointer as TupleSpec.LoadTyped gives it |
| Emission.TupleValue.NewFieldPointer | src/QsCompiler/QirGeneration/QIR/DataStructures.cs:369-386 | In a register: the struct field, with nothing emitted. On the heap: an element pointer computed from the typed pointer, or the undefined-pointer error when that cannot be loaded. It succeeds whenever the tuple is resolvable |
| Emission.TupleValue.HeapFieldPointer | src/QsCompiler/QirGeneration/QIR/DataStructures.cs:372-375 | The heap case: the element pointer instruction for the field, computed from the typed pointer of this very tuple, is appended after the typed pointer's own emissions and yields the address of that field; the undefined-pointer error leaves the log unchanged |
| Emission.FieldAddressEmitted | src/QsCompiler/QirGeneration/QIR/DataStructures.cs:374 | An element pointer instruction for field i, emitted from a pointer that addresses a tuple's handle, yields the address of field i of that tuple |
| Emission.TupleValue.GetTupleElementPointer | src/QsCompiler/QirGeneration/QIR/DataStructures.cs:408-409 | The cached field pointer while its cell is valid, with nothing emitted; otherwise a new one, which is cached; it never writes and never fails on a resolvable tuple |
| Emission.TupleValue.GetTupleElementPointers | src/QsCompiler/QirGeneration/QIR/DataStructures.cs:421-422 | One pointer per field, in order, each of its field's type and addressing that field, and each cached in its field's cell, which is then valid. When every cell is already valid, it succeeds and emits nothing. It never writes and never fails on a resolvable tuple |
| Emission.TupleValue.NextFieldPointer | src/QsCompiler/QirGeneration/QIR/DataStructures.cs:421-422 | One step of that loop: the next field's pointer, cached, with the earlier fields' cells still valid and holding their pointers; when the cells from this field on are all valid, it emits nothing and leaves the later ones valid; it never fails on a resolvable tuple, which stays resolvable |
| Emission.TupleValue.GetTupleElement | src/QsCompiler/QirGeneration/QIR/DataStructures.cs:415-416 | The value held by the field pointer's cell; served with nothing emitted when both cells are valid |
| Emission.TupleValue.GetTupleElements | src/QsCompiler/QirGeneration/QIR/DataStructures.cs:427-428 | One value per field, in order, each held by its field pointer's cell; nothing is written |
| Emission.TupleValue.FromBuiltElements | src/QsCompiler/QirGeneration/QIR/DataStructures.cs:307-310 | A tuple of the elements' types; element k is written to field k, in order, after the allocation on the heap, which is the tuple's handle and seeds the opaque cache; on the stack the struct value then holds exactly element k at position k. Each field pointer cell is new and valid, and its content cell holds element k from the current branch. It registers only a heap tuple and only when asked, right after its allocation, and increases no reference count |
| Emission.TupleValue.FromElements | src/QsCompiler/QirGeneration/QIR/DataStructures.cs:298-305 | As FromBuiltElements, and the scope manager additionally records exactly one reference-count increase per element, in order, all made after the last store |
| Emission.TupleValue.ReadBackField | src/QsCompiler/QirGeneration/QIR/DataStructures.cs:287-295 | Construct then read: reading field i of a tuple just built from the elements returns element i and emits nothing |
| Emission.TupleValue.Allocate | src/QsCompiler/QirGeneration/QIR/DataStructures.cs:323-326 | Emits only the tuple allocation; the opaque cache holds it, the typed cache is empty, and the tuple is registered only when asked |
| Emission.TupleValue.FromHandle | src/QsCompiler/QirGeneration/QIR/DataStructures.cs:337-340 | Emits nothing and registers nothing; the representation is seeded from the handle's type as TupleSpec.Seed says |
| Emission.ArrayValue.Build | src/QsCompiler/QirGeneration/QIR/DataStructures.cs:474-488 | The length cache is seeded with the length. On the stack: a native array type and a null aggregate, with nothing emitted. On the heap: exactly one runtime allocation, registered only when asked, right after it |
| Emission.ArrayValue.Wrap | src/QsCompiler/QirGeneration/QIR/DataStructures.cs:554-566 | A native array keeps its type and element type, and its length cache holds its constant length; the opaque array pointer gets the lowered element type and an empty length cache |
| Emission.ArrayValue.OpaquePointer | src/QsCompiler/QirGeneration/QIR/DataStructures.cs:457-460 | The handle exactly when the array is on the heap; the error for a stack array |
| Emission.ArrayValue.Length | src/QsCompiler/QirGeneration/QIR/DataStructures.cs:462-465 | A stack array's type constant, with nothing emitted; on the heap, the length cache as CacheSpec.Load gives it, querying the runtime size only when the cache is not valid |
| Emission.ArrayValue.Count | src/QsCompiler/QirGeneration/QIR/DataStructures.cs:453 | The usable constant of the length: the type's length on the stack, the cached length on the heap, and none after a runtime size query |
| Emission.ArrayValue.KnownCountReadsLength | src/QsCompiler/QirGeneration/QIR/DataStructures.cs:453 | The count Count reports (KnownCount, computed without emitting) is below int.MaxValue and is the usable constant of the length: of the native array's length constant on the stack, of the cached length on the heap |
| Emission.ArrayValue.GetArrayElementPointer | src/QsCompiler/QirGeneration/QIR/DataStructures.cs:598-621 | On the heap: the runtime element address, cast to the element pointer type. On the stack: the aggregate's element at a constant index, and the index error otherwise. The new pointer's cell is empty |
| Emission.ArrayValue.GetArrayElement | src/QsCompiler/QirGeneration/QIR/DataStructures.cs:627-628 | On the heap: address, cast and load, and the loaded value. On the stack: one extract at a constant index, or the index error with nothing emitted |
| Emission.ArrayValue.GetArrayElementPointers | src/QsCompiler/QirGeneration/QIR/DataStructures.cs:635-645 | Pointers for exactly the indices ArraySpec.ElementIndices enumerates, in order, each pointing to its element; the unknown-length error when nothing can be enumerated; the index error when a stack array meets an index outside 0..int.MaxValue-1 |
| Emission.ArrayValue.PointerAt | src/QsCompiler/QirGeneration/QIR/DataStructures.cs:642-643 | A fresh pointer to element idx through an i64 constant; it fails exactly for a stack array and an index that is not a usable constant |
| Emission.ArrayValue.PointersAt | src/QsCompiler/QirGeneration/QIR/DataStructures.cs:641-644 | Pointers to the given indices in order, each to its own element; it fails exactly when a stack array meets an unusable index; nothing is written |
| Emission.ArrayValue.NextPointer | src/QsCompiler/QirGeneration/QIR/DataStructures.cs:642-643 | One step of that loop: the next pointer, to its own element, with the earlier pointers still pointing to theirs; nothing is written |
| Emission.ArrayValue.GetArrayElements | src/QsCompiler/QirGeneration/QIR/DataStructures.cs:652-653 | The same success and error cases as GetArrayElementPointers, with one value of the element type per enumerated index; nothing is written |
| Emission.ArrayValue.WithLength | src/QsCompiler/QirGeneration/QIR/DataStructures.cs:474-488 | Refuses a stack array with a non-constant length and emits nothing. Otherwise it builds the array as Build says, and the array's count is the constant its length reads back as |
| Emission.ArrayValue.FromGenerator | src/QsCompiler/QirGeneration/QIR/DataStructures.cs:490-510 | Nothing is stored when the count is 0, and a stack array then holds nothing. Otherwise the generated element is written into the element at the loop index, and the scope manager records one scope opened and then closed with that element surviving. The scope is opened after the allocation and the last index, before the store, and closed after the store; a stack array then holds exactly that element at that index. The last index is computed at run time as length - 1 when the count is unknown. A stack array fails on a non-constant loop index, after the scope was opened |
| Emission.ArrayValue.Populate | src/QsCompiler/QirGeneration/QIR/DataStructures.cs:493-509 | The population step: skipped when the count is 0, leaving the array value as it was; otherwise the last index (when needed), then the scoped store, opened after the last index and closed after the store, whose one write puts the generated element into the element at the loop index, which a stack array's value then holds over what it held before; a failure leaves only the scope opening recorded |
| Emission.ArrayValue.LastIndex | src/QsCompiler/QirGeneration/QIR/DataStructures.cs:497-499 | The count; when it is unknown, one subtraction of 1 from the length is emitted |
| Emission.ArrayValue.StoreInScope | src/QsCompiler/QirGeneration/QIR/DataStructures.cs:504-507 | Writes the element generated at the index into the element at that index, which a stack array's value then holds over what it held before; the scope manager records a scope opened before any instruction of the store and then closed after all of them, with that element surviving, or only the opening when the store fails |
| Emission.ArrayValue.StoreAt | src/QsCompiler/QirGeneration/QIR/DataStructures.cs:506 | One write, of the item, into the element at the index: the position the constant index names on the stack, the runtime element address for that index on the heap; fails with nothing emitted for a stack array and a non-constant index; a stack array's value then holds the item at that index over what it held before |
| Emission.ArrayValue.FromList | src/QsCompiler/QirGeneration/QIR/DataStructures.cs:519-531 | For a count below int.MaxValue, element k is written into element k, in order, for every k below both the count and the number of elements. It fails with the index error exactly when fewer elements than the count are given. It registers only a heap array and only when asked, right after its allocation, and increases one count per stored element when asked, each right after the store of its element; the stores are the last instructions, and none before them writes. A stack array returned holds exactly element k at position k. A larger count fails: on the stack with nothing emitted, on the heap after the allocation (and its registration) |
| Emission.ArrayValue.StoreElements | src/QsCompiler/QirGeneration/QIR/DataStructures.cs:522-530 | The list constructor's loop: item k is written into element k, in order, and, when asked, the scope manager records one increase per stored item, in item order, each right after the store of its item; the stores are the last instructions and all the writes since the allocation; it stops with the index error when the items run out before the count; a stack array's value then holds the stored items at their positions over what it held before |
| Emission.ArrayValue.StoreInOrder | src/QsCompiler/QirGeneration/QIR/DataStructures.cs:525-529 | Given pointer k to element k, the first n items are written into elements 0 to n - 1, in order, as the last n instructions and the only writes since the log grew without writes, each increase when asked right after its store; a stack array's value then holds item k at position k over what it held before |
| Emission.ArrayValue.StoreOnHeap | src/QsCompiler/QirGeneration/QIR/DataStructures.cs:525-529 | For a heap array: item k is written, in order, through the runtime address of element k |
| Emission.ArrayValue.StoreOnStack | src/QsCompiler/QirGeneration/QIR/DataStructures.cs:525-529 | For a stack array: item k is inserted, in order, at position k, and the array value then holds item k at position k over what it held before |
| Emission.ArrayValue.StoredInOrder | src/QsCompiler/QirGeneration/QIR/DataStructures.cs:525-529 | The writes of the store loop, one per pointer to element k, land in elements 0, 1, ... in order |
| Emission.StoredCount | src/QsCompiler/QirGeneration/QIR/DataStructures.cs:522-530 | The number of stores the list constructor makes: the count when enough elements are given, otherwise every element given, and never more than either |
| Emission.ArrayValue.StackRunHolds | src/QsCompiler/QirGeneration/QIR/DataStructures.cs:612-613 | A chain of inserts through pointers to elements 0, 1, ... of a stack array leaves its value holding item k at position k over what the starting value held |
| Emission.ArrayValue.FromBuiltElements | src/QsCompiler/QirGeneration/QIR/DataStructures.cs:533-536 | The list constructor with the same success, error, write and contents cases as FromList and no reference-count increase |
| Emission.ArrayValue.FromElements | src/QsCompiler/QirGeneration/QIR/DataStructures.cs:538-541 | The list constructor with the same success, error, write and contents cases as FromList, and one reference-count increase per stored element, in order, each right after the store of its element |
| Emission.ArrayValue.FromHandle | src/QsCompiler/QirGeneration/QIR/DataStructures.cs:549-568 | Wraps a native array or the opaque array pointer without emitting; the count is known exactly for a native array below int.MaxValue; any other handle is refused |
| Emission.CallableValue.Create | src/QsCompiler/QirGeneration/QIR/DataStructures.cs:677-688 | Registers itself exactly once, after its last instruction. With no captures, one CallableCreate call with Unit. Otherwise a capture tuple is allocated, captured value k is written through the address of field k of that tuple, in order, and its opaque pointer is passed to the final CallableCreate call |
| Emission.CallableValue.CaptureArgument | src/QsCompiler/QirGeneration/QIR/DataStructures.cs:684-686 | Unit with nothing emitted when there are no captures; otherwise a heap tuple of them, captured value k written through the address of its field k, neither registered nor reference counted, whose opaque pointer is the allocation itself |
| Emission.CallableValue.Wrap | src/QsCompiler/QirGeneration/QIR/DataStructures.cs:696-701 | Wraps the handle with the callable LLVM type; nothing is emitted and nothing registered |

## Left out

- LLVM instruction construction (bitcasts, element pointers, insert and extract, alloca, load, store, null values) is not modelled. Each instruction is a log entry whose result is named by its position in the log.
- How the generation context tracks branches and loops is not modelled. The model reads only the answers to the branch queries, and assumes the current branch is open and, inside a loop, within the current loop.
- IterateThroughRange is not modelled. The generator constructor emits its loop body once, for the loop's index value, which is a parameter (`index`). The loop itself is emitted code, not a compile-time loop.
- Emission.ArrayValue.FromGenerator: a stack array with a count other than 0 fails with the index error whenever the loop index is not a constant, which is the usual case. The code throws there too, and the model reproduces it rather than correcting it.
- The scope manager's reference-count algorithm is not modelled; only the calls made to it are recorded: register, increase, open and close.
- GetOrCreateRuntimeFunction, ComputeSizeForType and the type lowering are not modelled. Runtime functions are names, sizes are symbolic `SizeOf` values, and lowering is the context's `lowerType` parameter.
- Types.TypedTuple is not modelled: a tuple's struct type is the struct of its element types.
- GetOrCreateCallableMemoryManagementTable is not modelled: the management table is a parameter of Emission.CallableValue.Create.
- The Q# type properties built from AST nodes (lines 253-256 and 446-447) are not modelled: types are values of a small `QsType` datatype.
- RegisterName (lines 112-118 and 213-219) is not modelled. It only names LLVM values.
- Values.From and BuildSubitem are not modelled. Elements are passed as already built typed values, and the generator is a pure function from the index to a typed value.
- Emission.ArrayValue.GetArrayElements: states only the count and the element type of the values it returns, not which reloaded value belongs to which element, and on its reload path only that the log grows without writes, not the loads appended.
- Emission.TupleValue.GetTupleElement and Emission.TupleValue.GetTupleElements: a pointer whose cell held a value from an earlier branch is reloaded. The model then states only where the value is held and that the log grows without writes, not the reloaded instruction.
- Emission.TupleValue.GetTupleElementPointer and Emission.TupleValue.GetTupleElementPointers: when a field pointer is computed anew, the model states that nothing is written and that the pointer addresses its field, not the exact instructions appended (a possible bitcast, then the element pointer).
- Emission.ArrayValue.FromList, Emission.ArrayValue.FromBuiltElements and Emission.ArrayValue.FromElements: when the elements run out before the count, no array is returned, so the partial stores are stated by their values and order only, not by the elements they land in. The registration a failing heap path makes is stated only as a registration, not as of which object.
- Exceptions are not modelled as exceptions. Each one is an `EmissionError` result or outcome returned at the point where the code throws. Callers that would see the exception see the error instead.
- In Caching.Cached.Store, the store closure is not a function stored in the cell. The cell accepts the store and stamps the value, and the owning pointer then emits the write. The resulting state is the same as running the closure first, because the closure never reads the cache.
- Integer widths: the model reads a constant through zero extension of its 64-bit two's-complement form. Counts are C# `uint` values (below 2^32), and indices passed to GetArrayElementPointers are C# `int` values.
