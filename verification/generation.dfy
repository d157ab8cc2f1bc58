/** The generation context as the value layer sees it: the branch and loop
    queries, an instruction builder that appends to a log, the calls made to
    the scope manager, and the lowering of Q# types to LLVM types. How the
    context tracks branches and loops, and what the scope manager does with
    the calls, are not part of this model. */
module Generation {
  import opened Wrappers
  import opened Llvm
  import CacheSpec

  /** A call made to the scope manager. Registration records the value
      object itself. */
  datatype ScopeCall =
    | RegisterValue(owner: object)
    | IncreaseReferenceCount(item: TypedValue)
    | OpenScope
    | CloseScope(survivor: TypedValue)

  /** One scope-manager call per element, increasing its reference count,
      in element order. */
  function IncreaseAll(items: seq<TypedValue>): (calls: seq<ScopeCall>)
    ensures |calls| == |items|
  {
    if items == [] then [] else [IncreaseReferenceCount(items[0])] + IncreaseAll(items[1..])
  }

  /** Increasing the counts of one more item adds one call at the end. */
  lemma {:induction false} IncreaseAllAppend(items: seq<TypedValue>, item: TypedValue)
    ensures IncreaseAll(items + [item]) == IncreaseAll(items) + [IncreaseReferenceCount(item)]
    decreases |items|
  {
    if items != [] {
      assert (items + [item])[1..] == items[1..] + [item];
      IncreaseAllAppend(items[1..], item);
    }
  }

  /** A reference-count loop's step: after the calls for the first `n`
      items, the call for item `n` gives the calls for the first n + 1. */
  lemma IncreaseStep(base: seq<ScopeCall>, before: seq<ScopeCall>, after: seq<ScopeCall>, items: seq<TypedValue>, n: nat)
    requires n < |items|
    requires before == base + IncreaseAll(items[..n]) && after == before + [IncreaseReferenceCount(items[n])]
    ensures after == base + IncreaseAll(items[..n + 1])
  {
    assert items[..n + 1] == items[..n] + [items[n]];
    IncreaseAllAppend(items[..n], items[n]);
  }

  /** The store loop's bookkeeping of scope-manager calls: one more store,
      followed by its increase when asked, extends both the calls and where
      they fall in the log by one. */
  lemma ScopeStep(calls: seq<ScopeCall>, marks: seq<nat>, calls0: seq<ScopeCall>, marks0: seq<nat>,
                  calls1: seq<ScopeCall>, marks1: seq<nat>, items: seq<TypedValue>, i: nat, start: nat, increase: bool)
    requires i < |items|
    requires calls0 == calls + (if increase then IncreaseAll(items[..i]) else [])
    requires marks0 == marks + (if increase then Interleaved(start, i) else [])
    requires calls1 == calls0 + (if increase then [IncreaseReferenceCount(items[i])] else [])
    requires marks1 == marks0 + (if increase then [start + i + 1] else [])
    ensures calls1 == calls + (if increase then IncreaseAll(items[..i + 1]) else [])
    ensures marks1 == marks + (if increase then Interleaved(start, i + 1) else [])
  {
    if increase {
      IncreaseStep(calls, calls0, calls1, items, i);
      assert Interleaved(start, i + 1) == Interleaved(start, i) + [start + i + 1];
    }
  }

  /** Where a write lands: through a pointer, or into a position of an
      aggregate held in a register. */
  datatype Target = Through(pointer: Value) | Into(position: nat)

  /** One write: the value written and where it lands. */
  datatype Write = Write(value: Value, target: Target)

  /** The writes performed by the store and insert instructions of a log, in
      the order they were emitted. */
  function Written(log: seq<Instr>): seq<Write>
    decreases |log|
  {
    if log == [] then []
    else
      (match log[0]
       case Store(v, p) => [Write(v, Through(p))]
       case InsertValue(_, v, k) => [Write(v, Into(k))]
       case _ => []) + Written(log[1..])
  }

  /** Written distributes over concatenated logs. */
  lemma {:induction false} WrittenAppend(a: seq<Instr>, b: seq<Instr>)
    ensures Written(a + b) == Written(a) + Written(b)
    decreases |a|
  {
    if a == [] {
      assert a + b == b;
    } else {
      assert (a + b)[0] == a[0];
      assert (a + b)[1..] == a[1..] + b;
      WrittenAppend(a[1..], b);
    }
  }

  /** A store loop's step: one more instruction adds its writes to those
      performed since `start`. */
  lemma WrittenStep(start: nat, before: seq<Instr>, after: seq<Instr>, i: Instr)
    requires start <= |before| && after == before + [i]
    ensures Written(after[start..]) == Written(before[start..]) + Written([i])
  {
    assert after[start..] == before[start..] + [i];
    WrittenAppend(before[start..], [i]);
  }

  /** A log made only of instructions that write nothing writes nothing. */
  lemma {:induction false} NoWritesWithoutStores(log: seq<Instr>)
    requires forall k :: 0 <= k < |log| ==> !log[k].Store? && !log[k].InsertValue?
    ensures Written(log) == []
    decreases |log|
  {
    if log != [] {
      NoWritesWithoutStores(log[1..]);
    }
  }

  /** `log` extends `before` with instructions that write nothing. */
  ghost predicate GrowsWithoutWrites(before: seq<Instr>, log: seq<Instr>) {
    && |before| <= |log| && log[..|before|] == before
    && forall k :: |before| <= k < |log| ==> !log[k].Store? && !log[k].InsertValue?
  }

  lemma GrowsWithoutWritesTransitive(a: seq<Instr>, b: seq<Instr>, c: seq<Instr>)
    requires GrowsWithoutWrites(a, b) && GrowsWithoutWrites(b, c)
    ensures GrowsWithoutWrites(a, c)
  {
    assert c[..|a|] == c[..|b|][..|a|];
  }

  /** What a log grown without writes adds writes nothing. */
  lemma WrittenSinceIsEmpty(before: seq<Instr>, log: seq<Instr>)
    requires GrowsWithoutWrites(before, log)
    ensures Written(log[|before|..]) == []
  {
    NoWritesWithoutStores(log[|before|..]);
  }

  /** A log that grew without writes and then by `n` more instructions
      grew without writes up to its last `n` instructions. */
  lemma QuietBeforeLast(before: seq<Instr>, mid: seq<Instr>, log: seq<Instr>, n: nat)
    requires GrowsWithoutWrites(before, mid) && |log| == |mid| + n && log[..|mid|] == mid
    ensures |before| + n <= |log| && GrowsWithoutWrites(before, log[..|log| - n])
  {
    assert log[..|log| - n] == mid;
  }

  /** The log of a store loop run once the log had grown without writes
      from `since` through `before` to `mid`: its `n` instructions are the
      last ones, and they are all the writes since `since`. */
  lemma StoresFollowQuietly(since: seq<Instr>, before: seq<Instr>, mid: seq<Instr>, log: seq<Instr>, n: nat)
    requires GrowsWithoutWrites(since, before) && GrowsWithoutWrites(before, mid)
    requires |log| == |mid| + n && log[..|mid|] == mid
    ensures |before| <= |log| && log[..|before|] == before
    ensures |since| + n <= |log| && GrowsWithoutWrites(since, log[..|log| - n])
    ensures Written(log[|since|..]) == Written(log[|mid|..])
  {
    GrowsWithoutWritesTransitive(since, before, mid);
    QuietBeforeLast(since, mid, log, n);
    WrittenAfterQuietPrefix(since, mid, log);
  }

  /** Writes since `before` are the writes since `mid` when the log grew
      from `before` to `mid` without writes. */
  lemma WrittenAfterQuietPrefix(before: seq<Instr>, mid: seq<Instr>, log: seq<Instr>)
    requires GrowsWithoutWrites(before, mid) && |mid| <= |log| && log[..|mid|] == mid
    ensures |before| <= |log| && log[..|before|] == before
    ensures Written(log[|before|..]) == Written(log[|mid|..])
  {
    assert log[|before|..] == mid[|before|..] + log[|mid|..];
    WrittenAppend(mid[|before|..], log[|mid|..]);
    WrittenSinceIsEmpty(before, mid);
  }

  /** `p` addresses what `root` addresses, as `log` records it: it is `root`
      itself, or the end of a chain of bitcasts that starts at `root`. */
  ghost predicate Aliases(log: seq<Instr>, root: Value, p: Value) {
    exists casts: seq<nat> {:trigger CastChain(log, root, p, casts)} :: CastChain(log, root, p, casts)
  }

  /** Link `j` of a chain of bitcasts, listed from the last cast back to the
      first: entry `casts[j]` of `log` is a bitcast of the result of the
      next link, or of `root` for the first cast. */
  ghost predicate CastLink(log: seq<Instr>, root: Value, casts: seq<nat>, j: int)
    requires 0 <= j < |casts|
  {
    && casts[j] < |log| && log[casts[j]].BitCast?
    && log[casts[j]].source == (if j + 1 < |casts| && casts[j + 1] < |log| then ResultOf(casts[j + 1], log[casts[j + 1]]) else root)
    && (j + 1 < |casts| ==> casts[j + 1] < |log|)
  }

  /** `casts` lists a chain of bitcasts from `root` to `p`, last cast first;
      the empty chain leads from `root` to itself. */
  ghost predicate CastChain(log: seq<Instr>, root: Value, p: Value, casts: seq<nat>) {
    && (forall j :: 0 <= j < |casts| ==> CastLink(log, root, casts, j))
    && (casts == [] ==> p == root)
    && (casts != [] ==> casts[0] < |log| && p == ResultOf(casts[0], log[casts[0]]))
  }

  /** A cast chain stays one as the log grows. */
  lemma AliasesGrows(before: seq<Instr>, log: seq<Instr>, root: Value, p: Value)
    requires |before| <= |log| && log[..|before|] == before
    requires Aliases(before, root, p)
    ensures Aliases(log, root, p)
  {
    var casts :| CastChain(before, root, p, casts);
    forall j | 0 <= j < |casts|
      ensures CastLink(log, root, casts, j)
    {
      assert CastLink(before, root, casts, j);
      assert log[casts[j]] == before[casts[j]];
      if j + 1 < |casts| {
        assert log[casts[j + 1]] == before[casts[j + 1]];
      }
    }
    if casts != [] {
      assert CastLink(before, root, casts, 0);
      assert log[casts[0]] == before[casts[0]];
    }
    assert CastChain(log, root, p, casts);
  }

  /** The bitcast of an alias, emitted next, is an alias. */
  lemma AliasesCast(log: seq<Instr>, root: Value, p: Value, t: LlvmType)
    requires Aliases(log, root, p)
    ensures Aliases(log + [BitCast(p, t)], root, ResultOf(|log|, BitCast(p, t)))
  {
    var casts :| CastChain(log, root, p, casts);
    var longer := log + [BitCast(p, t)];
    var casts' := [|log|] + casts;
    forall j | 0 <= j < |casts'|
      ensures CastLink(longer, root, casts', j)
    {
      if j == 0 {
        if casts != [] {
          assert CastLink(log, root, casts, 0);
        }
      } else {
        assert CastLink(log, root, casts, j - 1);
        assert longer[casts[j - 1]] == log[casts[j - 1]];
        if j < |casts| {
          assert longer[casts[j]] == log[casts[j]];
        }
      }
    }
    assert CastChain(longer, root, ResultOf(|log|, BitCast(p, t)), casts');
  }

  /** A handle addresses itself. */
  lemma AliasesSelf(log: seq<Instr>, root: Value)
    ensures Aliases(log, root, root)
  {
    assert CastChain(log, root, root, []);
  }

  /** What an aggregate held in a register contains, as `log` records it: a
      null aggregate holds nothing yet, and the result of an insert holds
      what the aggregate it inserts into holds, with the inserted value at
      its position. A value that is neither is not traced (None). */
  ghost function Holds(log: seq<Instr>, v: Value): Option<map<nat, Value>>
    decreases |log|
  {
    if v.IsNull() then Some(map[])
    else if v.origin.Instruction? && v.origin.id < |log| && log[v.origin.id].InsertValue?
            && v == ResultOf(v.origin.id, log[v.origin.id]) then
      var i := log[v.origin.id];
      match Holds(log[..v.origin.id], i.aggregate)
      case Some(m) => Some(m[i.position := i.element])
      case None => None
    else None
  }

  /** What a traced aggregate holds stays the same as the log grows. */
  lemma HoldsGrows(before: seq<Instr>, log: seq<Instr>, v: Value)
    requires |before| <= |log| && log[..|before|] == before
    requires Holds(before, v).Some?
    ensures Holds(log, v) == Holds(before, v)
  {
    if !v.IsNull() {
      var j := v.origin.id;
      assert log[..j] == before[..j] && log[j] == before[j];
    }
  }

  /** An insert emitted next gives an aggregate holding what `agg` holds,
      with `x` at position `k`. */
  lemma HoldsInsert(log: seq<Instr>, agg: Value, x: Value, k: nat)
    requires Holds(log, agg).Some?
    ensures Holds(log + [InsertValue(agg, x, k)], ResultOf(|log|, InsertValue(agg, x, k))) == Some(Holds(log, agg).value[k := x])
  {
    assert (log + [InsertValue(agg, x, k)])[..|log|] == log;
  }

  /** Entry `j` of a run of inserts starting at `start`: an insert into
      `from` for the first, into the result of the entry before otherwise. */
  ghost predicate LinkedAt(log: seq<Instr>, start: nat, from: Value, j: int)
    requires start <= j < |log|
  {
    log[j].InsertValue? && log[j].aggregate == (if j == start then from else ResultOf(j - 1, log[j - 1]))
  }

  /** From `start` on, `log` is a run of inserts threading one aggregate:
      the first inserts into `from`, each later one into the result of the
      one before, and `to` is the result of the last (`from` when the run
      is empty). */
  ghost predicate InsertRun(log: seq<Instr>, start: nat, from: Value, to: Value) {
    && start <= |log|
    && (forall j :: start <= j < |log| ==> LinkedAt(log, start, from, j))
    && to == (if |log| == start then from else ResultOf(|log| - 1, log[|log| - 1]))
  }

  /** An insert into the end of a run, emitted next, extends the run. */
  lemma InsertRunStep(log: seq<Instr>, start: nat, from: Value, to: Value, x: Instr)
    requires InsertRun(log, start, from, to)
    requires x.InsertValue? && x.aggregate == to
    ensures InsertRun(log + [x], start, from, ResultOf(|log|, x))
  {
    var longer := log + [x];
    forall j | start <= j < |longer|
      ensures LinkedAt(longer, start, from, j)
    {
      if j < |log| {
        assert LinkedAt(log, start, from, j);
        assert longer[j] == log[j];
      }
      if start < j {
        assert longer[j - 1] == log[j - 1];
      }
    }
  }

  /** A non-empty run without its last insert is a run ending in the
      aggregate that insert goes into. */
  lemma InsertRunInit(log: seq<Instr>, start: nat, from: Value, to: Value)
    requires InsertRun(log, start, from, to) && start < |log|
    ensures var n := |log| - 1; var mid := if n == start then from else ResultOf(n - 1, log[n - 1]);
      InsertRun(log[..n], start, from, mid) && log[n].InsertValue? && log[n].aggregate == mid && to == ResultOf(n, log[n])
  {
    var n := |log| - 1;
    forall j | start <= j < n
      ensures LinkedAt(log[..n], start, from, j)
    {
      assert LinkedAt(log, start, from, j);
      assert log[..n][j] == log[j];
      if start < j {
        assert log[..n][j - 1] == log[j - 1];
      }
    }
    assert LinkedAt(log, start, from, n);
  }

  /** The writes of a run of inserts are its elements at its positions. */
  lemma {:induction false} WrittenRun(log: seq<Instr>)
    requires forall j :: 0 <= j < |log| ==> log[j].InsertValue?
    ensures |Written(log)| == |log|
    ensures forall j :: 0 <= j < |log| ==> Written(log)[j] == Write(log[j].element, Into(log[j].position))
    decreases |log|
  {
    if log != [] {
      WrittenRun(log[1..]);
    }
  }

  /** A run of inserts of the items' handles at positions 0, 1, ... leaves
      its last aggregate holding what the first one held, with the items
      at those positions. */
  lemma {:induction false} HoldsRun(log: seq<Instr>, start: nat, from: Value, to: Value, items: seq<TypedValue>)
    requires InsertRun(log, start, from, to) && Holds(log[..start], from).Some?
    requires |log| - start == |items|
    requires forall j :: start <= j < |log| ==>
      log[j].InsertValue? && log[j].position == j - start && log[j].element == items[j - start].handle
    ensures Holds(log, to) == Some(Holds(log[..start], from).value + Fill(items))
    decreases |log|
  {
    var held := Holds(log[..start], from).value;
    if |log| == start {
      assert log[..start] == log;
      assert held + Fill(items) == held;
    } else {
      var n := |log| - 1;
      var m := |items| - 1;
      var mid := if n == start then from else ResultOf(n - 1, log[n - 1]);
      InsertRunInit(log, start, from, to);
      assert log[..n][..start] == log[..start];
      forall j | start <= j < n
        ensures log[..n][j].InsertValue? && log[..n][j].position == j - start && log[..n][j].element == items[..m][j - start].handle
      {
        assert log[..n][j] == log[j];
      }
      HoldsRun(log[..n], start, from, mid, items[..m]);
      assert log[..n] + [InsertValue(mid, items[m].handle, m)] == log;
      HoldsInsert(log[..n], mid, items[m].handle, m);
      FillLast(held, items);
    }
  }

  /** A run of inserts emitted after `before` whose writes put the items'
      handles at positions 0, 1, ... leaves its last aggregate holding what
      the first one held, with the items at those positions. */
  lemma RunHolds(before: seq<Instr>, log: seq<Instr>, from: Value, to: Value, items: seq<TypedValue>)
    requires |before| <= |log| && log[..|before|] == before
    requires InsertRun(log, |before|, from, to) && Holds(before, from).Some?
    requires var ws := Written(log[|before|..]);
      |ws| == |items| && forall k :: 0 <= k < |items| ==> ws[k] == Write(items[k].handle, Into(k))
    ensures Holds(log, to) == Some(Holds(before, from).value + Fill(items))
  {
    var s := |before|;
    var run := log[s..];
    forall j | 0 <= j < |run|
      ensures run[j].InsertValue?
    {
      assert LinkedAt(log, s, from, s + j);
      assert run[j] == log[s + j];
    }
    WrittenRun(run);
    var ws := Written(run);
    forall j | s <= j < |log|
      ensures log[j].InsertValue? && log[j].position == j - s && log[j].element == items[j - s].handle
    {
      assert LinkedAt(log, s, from, j);
      assert run[j - s] == log[j];
      assert ws[j - s] == Write(log[j].element, Into(log[j].position));
    }
    HoldsRun(log, s, from, to, items);
  }

  /** Filling over nothing gives the fill alone. */
  lemma FillOverEmpty(items: seq<TypedValue>)
    ensures map[] + Fill(items) == Fill(items)
  {
  }

  /** Filling one more item sets its position over the shorter fill. */
  lemma FillLast(held: map<nat, Value>, items: seq<TypedValue>)
    requires items != []
    ensures var m := |items| - 1; held + Fill(items) == (held + Fill(items[..m]))[m := items[m].handle]
  {
  }

  /** Positions 0, 1, ... holding the handles of `items`, in order. */
  function Fill(items: seq<TypedValue>): (m: map<nat, Value>)
    ensures forall k: nat :: k in m <==> k < |items|
    ensures forall k: nat :: k < |items| ==> m[k] == items[k].handle
  {
    map k: nat | k < |items| :: items[k].handle
  }

  /** Where `n` scope-manager calls made one after another, with nothing
      emitted between them, fall in the log: all at position `at`. */
  function Together(at: nat, n: nat): (marks: seq<nat>)
    ensures |marks| == n && forall k :: 0 <= k < n ==> marks[k] == at
  {
    if n == 0 then [] else Together(at, n - 1) + [at]
  }

  /** Where `n` scope-manager calls fall when each follows one more
      instruction emitted after position `start`: call k right after
      instruction start + k. */
  function Interleaved(start: nat, n: nat): (marks: seq<nat>)
    ensures |marks| == n && forall k :: 0 <= k < n ==> marks[k] == start + k + 1
  {
    if n == 0 then [] else Interleaved(start, n - 1) + [start + n]
  }

  class GenerationContext {
    var currentBranch: int
    var openBranches: set<int>
    var withinLoop: bool
    var currentLoop: set<int>
    /** Every instruction emitted so far; the result of log[k] is the handle
        ResultOf(k, log[k]). */
    var log: seq<Instr>
    /** Every call made to the scope manager so far. */
    var scopeCalls: seq<ScopeCall>
    /** For each scope-manager call, the length of the log when it was
        made: the call follows the instructions before that position and
        precedes the rest. */
    ghost var marks: seq<nat>
    /** The lowering of a Q# type to its LLVM type, as a native type or not. */
    const lowerType: (QsType, bool) -> LlvmType

    constructor (lowerType: (QsType, bool) -> LlvmType)
      ensures this.lowerType == lowerType
      ensures currentBranch == 0 && openBranches == {0} && !withinLoop && currentLoop == {}
      ensures log == [] && scopeCalls == [] && marks == []
      ensures Valid()
    {
      this.lowerType := lowerType;
      currentBranch, openBranches, withinLoop, currentLoop := 0, {0}, false, {};
      log, scopeCalls, marks := [], [], [];
    }

    /** The answers to the branch queries in the current state. */
    function Branches(): CacheSpec.Branches
      reads this`currentBranch, this`openBranches, this`withinLoop, this`currentLoop
    {
      CacheSpec.Branches(currentBranch, openBranches, withinLoop, currentLoop)
    }

    /** The branch being emitted into is open and, inside a loop, belongs to
        the current loop. */
    predicate Valid()
      reads this`currentBranch, this`openBranches, this`withinLoop, this`currentLoop
    {
      Branches().WellFormed()
    }

    method Emit(i: Instr) returns (v: Value)
      modifies this`log
      ensures log == old(log) + [i]
      ensures v == ResultOf(|old(log)|, i)
    {
      v := ResultOf(|log|, i);
      log := log + [i];
    }

    method Register(owner: object)
      modifies this`scopeCalls, this`marks
      ensures scopeCalls == old(scopeCalls) + [RegisterValue(owner)]
      ensures marks == old(marks) + [|log|]
    {
      scopeCalls := scopeCalls + [RegisterValue(owner)];
      marks := marks + [|log|];
    }

    method IncreaseCount(item: TypedValue)
      modifies this`scopeCalls, this`marks
      ensures scopeCalls == old(scopeCalls) + [IncreaseReferenceCount(item)]
      ensures marks == old(marks) + [|log|]
    {
      scopeCalls := scopeCalls + [IncreaseReferenceCount(item)];
      marks := marks + [|log|];
    }

    /** Increases the reference count of each item, in order. */
    method IncreaseCounts(items: seq<TypedValue>)
      modifies this`scopeCalls, this`marks
      ensures scopeCalls == old(scopeCalls) + IncreaseAll(items)
      ensures marks == old(marks) + Together(|log|, |items|)
    {
      var i := 0;
      while i < |items|
        invariant 0 <= i <= |items|
        invariant scopeCalls == old(scopeCalls) + IncreaseAll(items[..i])
        invariant marks == old(marks) + Together(|log|, i)
      {
        ghost var before := scopeCalls;
        IncreaseCount(items[i]);
        IncreaseStep(old(scopeCalls), before, scopeCalls, items, i);
        i := i + 1;
      }
      assert items[..i] == items;
    }

    method Open()
      modifies this`scopeCalls, this`marks
      ensures scopeCalls == old(scopeCalls) + [OpenScope]
      ensures marks == old(marks) + [|log|]
    {
      scopeCalls := scopeCalls + [OpenScope];
      marks := marks + [|log|];
    }

    method Close(survivor: TypedValue)
      modifies this`scopeCalls, this`marks
      ensures scopeCalls == old(scopeCalls) + [CloseScope(survivor)]
      ensures marks == old(marks) + [|log|]
    {
      scopeCalls := scopeCalls + [CloseScope(survivor)];
      marks := marks + [|log|];
    }
  }
}
