/** Smaller pieces of context state: the list of virtually mapped region
    indices a context ships to a remote mirror, the memo of index-space
    domains used by safe casts, and the nesting discipline of traces. */
module Extras {
  import opened LegionTypes

  // ---------------------------------------------------------------------
  // Virtually mapped regions

  /** The positions at or after `from` whose entry is true, ascending. */
  function VirtualIndexesFrom(vm: seq<bool>, from: nat): seq<nat>
    requires from <= |vm|
    decreases |vm| - from
  {
    if from == |vm| then []
    else if vm[from] then [from] + VirtualIndexesFrom(vm, from + 1)
    else VirtualIndexesFrom(vm, from + 1)
  }

  /** The positions listed from `from` on are exactly the true entries at
      or after `from`, in ascending order. */
  lemma {:induction false} VirtualIndexesFromFacts(vm: seq<bool>, from: nat)
    requires from <= |vm|
    decreases |vm| - from
    ensures forall k :: 0 <= k < |VirtualIndexesFrom(vm, from)| ==>
              from <= VirtualIndexesFrom(vm, from)[k] < |vm| && vm[VirtualIndexesFrom(vm, from)[k]]
    ensures forall k, l :: 0 <= k < l < |VirtualIndexesFrom(vm, from)| ==>
              VirtualIndexesFrom(vm, from)[k] < VirtualIndexesFrom(vm, from)[l]
    ensures forall i :: from <= i < |vm| && vm[i] ==> i in VirtualIndexesFrom(vm, from)
  {
    if from < |vm| {
      VirtualIndexesFromFacts(vm, from + 1);
      var rest := VirtualIndexesFrom(vm, from + 1);
      if vm[from] {
        assert VirtualIndexesFrom(vm, from) == [from] + rest;
        assert forall k :: 1 <= k < |rest| + 1 ==> ([from] + rest)[k] == rest[k - 1];
      } else {
        assert VirtualIndexesFrom(vm, from) == rest;
      }
    }
  }

  /** The packed form: the ascending positions of the true entries. */
  function VirtualIndexes(vm: seq<bool>): (r: seq<nat>)
    ensures forall k :: 0 <= k < |r| ==> r[k] < |vm| && vm[r[k]]
    ensures forall k, l :: 0 <= k < l < |r| ==> r[k] < r[l]
    ensures forall i :: 0 <= i < |vm| && vm[i] ==> i in r
  {
    VirtualIndexesFromFacts(vm, 0);
    VirtualIndexesFrom(vm, 0)
  }

  /** The unpacked form: `n` entries, true exactly at the listed positions. */
  function VirtualMapped(n: nat, indexes: seq<nat>): (r: seq<bool>)
    ensures |r| == n
    ensures forall i :: 0 <= i < n ==> (r[i] <==> i in indexes)
  {
    seq(n, i => i in indexes)
  }

  /** Unpacking the packed form gives back the original vector. */
  lemma UnpackPack(vm: seq<bool>)
    ensures VirtualMapped(|vm|, VirtualIndexes(vm)) == vm
  {
    var r := VirtualMapped(|vm|, VirtualIndexes(vm));
    forall i | 0 <= i < |vm| ensures r[i] == vm[i] {
      if r[i] {
        var k :| 0 <= k < |VirtualIndexes(vm)| && VirtualIndexes(vm)[k] == i;
      }
    }
  }

  predicate StrictlyAscending(s: seq<nat>)
  {
    forall k, l :: 0 <= k < l < |s| ==> s[k] < s[l]
  }

  /** The entry at `i`, or `default` past the end. */
  function At(s: seq<nat>, i: nat, default: nat): (r: nat)
    ensures i < |s| ==> r == s[i]
    ensures i >= |s| ==> r == default
  {
    if i < |s| then s[i] else default
  }

  /** In the packed form of `vm`, a true entry at `from` comes first and a
      false one is skipped. */
  lemma PackStep(vm: seq<bool>, from: nat)
    requires from < |vm|
    ensures vm[from] ==> VirtualIndexesFrom(vm, from) == [from] + VirtualIndexesFrom(vm, from + 1)
    ensures !vm[from] ==> VirtualIndexesFrom(vm, from) == VirtualIndexesFrom(vm, from + 1)
  {
  }

  /** The first listed position at or above `from` is `from` itself when
      `from` is listed, and above it otherwise. */
  lemma ListedStep(indexes: seq<nat>, from: nat, j: nat)
    requires StrictlyAscending(indexes) && j <= |indexes|
    requires forall k :: 0 <= k < j ==> indexes[k] < from
    requires forall k :: j <= k < |indexes| ==> from <= indexes[k]
    ensures from in indexes ==> j < |indexes| && indexes[j] == from &&
                                forall k :: j + 1 <= k < |indexes| ==> from + 1 <= indexes[k]
    ensures from !in indexes ==> forall k :: j <= k < |indexes| ==> from + 1 <= indexes[k]
  {
    if from in indexes {
      var k :| 0 <= k < |indexes| && indexes[k] == from;
      assert k == j by {
        assert !(k < j);
        var first := At(indexes, j, from);
        assert !(k > j);
      }
      forall l | j + 1 <= l < |indexes| ensures from + 1 <= indexes[l] {
        assert indexes[j] < indexes[l];
      }
    }
  }

  /** The packed form of an unpacked list, read from position `from`, is
      the part of the list at or above `from`. */
  lemma {:induction false} PackUnpackFrom(n: nat, indexes: seq<nat>, from: nat, j: nat)
    requires StrictlyAscending(indexes)
    requires forall k :: 0 <= k < |indexes| ==> indexes[k] < n
    requires from <= n && j <= |indexes|
    requires forall k :: 0 <= k < j ==> indexes[k] < from
    requires forall k :: j <= k < |indexes| ==> from <= indexes[k]
    ensures VirtualIndexesFrom(VirtualMapped(n, indexes), from) == indexes[j..]
    decreases n - from
  {
    var vm := VirtualMapped(n, indexes);
    if from == n {
      var first := At(indexes, j, n);
      assert j == |indexes|;
    } else {
      PackStep(vm, from);
      ListedStep(indexes, from, j);
      if from in indexes {
        PackUnpackFrom(n, indexes, from + 1, j + 1);
        var rest := VirtualIndexesFrom(vm, from + 1);
        assert indexes[j..] == [from] + indexes[j + 1..];
        calc {
          VirtualIndexesFrom(vm, from);
          [from] + rest;
          [from] + indexes[j + 1..];
        }
      } else {
        PackUnpackFrom(n, indexes, from + 1, j);
      }
    }
  }

  /** Packing an unpacked list of ascending in-range positions gives the list back. */
  lemma PackUnpack(n: nat, indexes: seq<nat>)
    requires StrictlyAscending(indexes)
    requires forall k :: 0 <= k < |indexes| ==> indexes[k] < n
    ensures VirtualIndexes(VirtualMapped(n, indexes)) == indexes
  {
    PackUnpackFrom(n, indexes, 0, 0);
  }

  // ---------------------------------------------------------------------
  // Safe casts

  /** An index-space domain, as the set of points it contains. */
  datatype Domain = Domain(points: set<int>)

  datatype Cast = Cast(cache: map<IndexSpace, Domain>, result: Option<int>)

  /** A safe cast of `point` into `handle`: the memo is consulted first; on a
      miss the domain is fetched (from `domainOf`) and remembered. The result
      is the point when the domain contains it, and nil otherwise. */
  function SafeCast(cache: map<IndexSpace, Domain>, domainOf: IndexSpace -> Domain,
                    handle: IndexSpace, point: int): (r: Cast)
    ensures handle in cache ==> r.cache == cache
    ensures handle !in cache ==> r.cache == cache[handle := domainOf(handle)]
    ensures handle in r.cache && (r.result.Some? <==> point in r.cache[handle].points)
    ensures r.result.Some? ==> r.result.value == point
  {
    if handle in cache then
      Cast(cache, if point in cache[handle].points then Some(point) else None)
    else
      var d := domainOf(handle);
      Cast(cache[handle := d], if point in d.points then Some(point) else None)
  }

  /** The memo agrees with the runtime's domains. */
  predicate CacheAgrees(cache: map<IndexSpace, Domain>, domainOf: IndexSpace -> Domain)
  {
    forall h :: h in cache ==> cache[h] == domainOf(h)
  }

  /** A memo that agrees with the runtime goes on agreeing, and the cast
      answers exactly as a direct lookup would. */
  lemma SafeCastMatchesDirect(cache: map<IndexSpace, Domain>, domainOf: IndexSpace -> Domain,
                              handle: IndexSpace, point: int)
    requires CacheAgrees(cache, domainOf)
    ensures CacheAgrees(SafeCast(cache, domainOf, handle, point).cache, domainOf)
    ensures SafeCast(cache, domainOf, handle, point).result ==
            (if point in domainOf(handle).points then Some(point) else None)
  {
  }

  /** Casting again with the memo the first cast left behind: the same
      answer, and the memo is not touched. */
  lemma SafeCastRepeat(cache: map<IndexSpace, Domain>, domainOf: IndexSpace -> Domain,
                       handle: IndexSpace, point: int, other: IndexSpace -> Domain)
    ensures var first := SafeCast(cache, domainOf, handle, point);
            var second := SafeCast(first.cache, other, handle, point);
            second == first
  {
  }

  // ---------------------------------------------------------------------
  // Traces

  /** The trace being recorded, if any, and for each known trace whether
      it has been fixed (captured once). */
  datatype Traces = Traces(current: Option<TraceId>, fixed: map<TraceId, bool>)

  predicate TracesInv(t: Traces)
  {
    t.current.Some? ==> t.current.value in t.fixed
  }

  /** What ending a trace puts into the operation stream. */
  datatype TraceOp = CaptureOp | CompleteOp

  datatype TraceResult =
    | TraceError(err: LegionError)
    | Began(traces: Traces, mappingFence: bool)
    | Ended(traces: Traces, op: TraceOp)

  /** Beginning a trace: refused inside another trace; a new trace is
      recorded as not fixed; replaying a known one first issues a mapping
      fence. */
  function BeginTrace(t: Traces, tid: TraceId): (r: TraceResult)
    ensures t.current.Some? <==> r == TraceError(IllegalNestedTrace)
    ensures r.Began? ==> r.traces.current == Some(tid)
    ensures r.Began? ==> (r.mappingFence <==> tid in t.fixed)
    ensures r.Began? && tid in t.fixed ==> r.traces.fixed == t.fixed
    ensures r.Began? && tid !in t.fixed ==> r.traces.fixed == t.fixed[tid := false]
  {
    if t.current.Some? then TraceError(IllegalNestedTrace)
    else if tid !in t.fixed then Began(Traces(Some(tid), t.fixed[tid := false]), false)
    else Began(Traces(Some(tid), t.fixed), true)
  }

  /** Ending the current trace (the identifier passed is not consulted):
      refused outside a trace; the first end of a trace captures and fixes
      it, later ones complete it. */
  function EndTrace(t: Traces, tid: TraceId): (r: TraceResult)
    requires TracesInv(t)
    ensures t.current.None? <==> r == TraceError(UnmatchedEndTrace)
    ensures r.Ended? ==> r.traces.current.None?
    ensures r.Ended? ==> (r.op == CaptureOp <==> !t.fixed[t.current.value])
    ensures r.Ended? ==> r.traces.fixed == t.fixed[t.current.value := true]
  {
    if t.current.None? then TraceError(UnmatchedEndTrace)
    else
      var cur := t.current.value;
      if t.fixed[cur] then Ended(Traces(None, t.fixed), CompleteOp)
      else Ended(Traces(None, t.fixed[cur := true]), CaptureOp)
  }

  datatype TraceCall = BeginCall(tid: TraceId) | EndCall(tid: TraceId)

  /** Running begin/end calls; None at the first refused call. */
  function RunTraces(t: Traces, calls: seq<TraceCall>): Option<Traces>
    requires TracesInv(t)
    decreases |calls|
  {
    if calls == [] then Some(t)
    else
      var r := match calls[0]
               case BeginCall(tid) => BeginTrace(t, tid)
               case EndCall(tid) => EndTrace(t, tid);
      match r
      case TraceError(_) => None
      case Began(t', _) => RunTraces(t', calls[1..])
      case Ended(t', _) => RunTraces(t', calls[1..])
  }

  /** Calls alternate begin, end, begin, ... (end first when inside a trace). */
  predicate Alternates(calls: seq<TraceCall>, inside: bool)
    decreases |calls|
  {
    calls == [] || (calls[0].BeginCall? != inside && Alternates(calls[1..], !inside))
  }

  /** A run of trace calls succeeds exactly when begins and ends alternate. */
  lemma {:induction false} TracesSucceedIffAlternating(t: Traces, calls: seq<TraceCall>)
    requires TracesInv(t)
    ensures RunTraces(t, calls).Some? <==> Alternates(calls, t.current.Some?)
    decreases |calls|
  {
    if calls != [] {
      match calls[0]
      case BeginCall(tid) =>
        if t.current.None? {
          TracesSucceedIffAlternating(BeginTrace(t, tid).traces, calls[1..]);
        }
      case EndCall(tid) =>
        if t.current.Some? {
          TracesSucceedIffAlternating(EndTrace(t, tid).traces, calls[1..]);
        }
    }
  }

  /** Recording a trace and replaying it: the first pass captures, the
      replay issues a mapping fence and completes. */
  lemma TraceReplay(t: Traces, tid: TraceId)
    requires t.current.None? && tid !in t.fixed
    ensures var b1 := BeginTrace(t, tid);
            var e1 := EndTrace(b1.traces, tid);
            var b2 := BeginTrace(e1.traces, tid);
            var e2 := EndTrace(b2.traces, tid);
            !b1.mappingFence && e1.op == CaptureOp && b2.mappingFence && e2.op == CompleteOp &&
            e2.traces.current.None? && e2.traces.fixed == t.fixed[tid := true]
  {
  }
}
