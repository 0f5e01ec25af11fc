/**
 * The resource bank as the program keeps it: a vector of available units
 * and the max, allocation and need matrices held in arrays, the safety
 * check that scans them, and the request and release operations that
 * update them in place. Every operation is proved against the value-level
 * specification in module Banker.
 */
module ResourceBank {
  import opened Banker

  /** The rows of a two-dimensional array, as a value. */
  ghost function Rows(m: array2<int>): (rows: Matrix)
    reads m
    ensures |rows| == m.Length0
    ensures forall p :: 0 <= p < m.Length0 ==> |rows[p]| == m.Length1
    ensures forall p, j :: 0 <= p < m.Length0 && 0 <= j < m.Length1 ==> rows[p][j] == m[p, j]
  {
    seq(m.Length0, p requires 0 <= p < m.Length0 reads m =>
      seq(m.Length1, j requires 0 <= j < m.Length1 reads m => m[p, j]))
  }

  /** The state held in three arrays. */
  ghost function StateOf(avail: array<int>, alloc: array2<int>, need: array2<int>): State
    reads avail, alloc, need
  {
    State(avail[..], Rows(alloc), Rows(need))
  }

  /** An array whose cells match those of a matrix value of the same shape holds that value. */
  lemma RowsEqual(m: array2<int>, b: Matrix)
    requires |b| == m.Length0 && IsMatrix(b, m.Length1)
    requires forall p, j :: 0 <= p < m.Length0 && 0 <= j < m.Length1 ==> m[p, j] == b[p][j]
    ensures Rows(m) == b
  {
    forall p | 0 <= p < m.Length0 ensures Rows(m)[p] == b[p] {
    }
  }

  /** A fresh array holding the same values. */
  method CopyVector(source: array<int>) returns (copy: array<int>)
    ensures fresh(copy) && copy[..] == source[..]
  {
    copy := new int[source.Length];
    for i := 0 to source.Length
      invariant forall k :: 0 <= k < i ==> copy[k] == source[k]
    {
      copy[i] := source[i];
    }
  }

  /** A fresh matrix holding the same values; the width is read from the first row. */
  method CopyMatrix(source: array2<int>) returns (copy: array2<int>)
    requires source.Length0 >= 1
    ensures fresh(copy) && Rows(copy) == Rows(source)
  {
    copy := new int[source.Length0, source.Length1];
    for i := 0 to source.Length0
      invariant forall p, k :: 0 <= p < i && 0 <= k < source.Length1 ==> copy[p, k] == source[p, k]
    {
      for j := 0 to source.Length1
        invariant forall p, k :: 0 <= p < i && 0 <= k < source.Length1 ==> copy[p, k] == source[p, k]
        invariant forall k :: 0 <= k < j ==> copy[i, k] == source[i, k]
      {
        copy[i, j] := source[i, j];
      }
    }
    RowsEqual(copy, Rows(source));
  }

  /**
   * A fresh vector, `first` plus row `row` of `second`. The second operand
   * is always a row of an allocation matrix, so it is named by its matrix
   * and row number.
   */
  method VectorAdd(first: array<int>, second: array2<int>, row: int) returns (sum: array<int>)
    requires first.Length == second.Length1 && 0 <= row < second.Length0
    ensures fresh(sum) && sum[..] == Add(first[..], Rows(second)[row])
  {
    sum := new int[first.Length];
    for i := 0 to sum.Length
      invariant forall k :: 0 <= k < i ==> sum[k] == first[k] + second[row, k]
    {
      sum[i] := first[i] + second[row, i];
    }
  }

  /**
   * Applies a request of process `index` to the given arrays, which may be
   * the bank's own or copies of them.
   */
  method EffectRequest(request: seq<int>, index: int, avail: array<int>, alloc: array2<int>, need: array2<int>)
    requires alloc != need
    requires 0 <= index < alloc.Length0 && need.Length0 == alloc.Length0
    requires alloc.Length1 == need.Length1 == avail.Length == |request|
    modifies avail, alloc, need
    ensures StateOf(avail, alloc, need) == Grant(old(StateOf(avail, alloc, need)), request, index)
  {
    ghost var st := StateOf(avail, alloc, need);
    for j := 0 to alloc.Length1
      invariant forall k :: 0 <= k < avail.Length ==>
        avail[k] == if k < j then st.available[k] - request[k] else st.available[k]
      invariant forall p, k :: 0 <= p < alloc.Length0 && 0 <= k < alloc.Length1 ==>
        alloc[p, k] == if p == index && k < j then st.allocation[p][k] + request[k] else st.allocation[p][k]
      invariant forall p, k :: 0 <= p < need.Length0 && 0 <= k < need.Length1 ==>
        need[p, k] == if p == index && k < j then st.need[p][k] - request[k] else st.need[p][k]
    {
      avail[j] := avail[j] - request[j];
      alloc[index, j] := alloc[index, j] + request[j];
      need[index, j] := need[index, j] - request[j];
    }
    var g := Grant(st, request, index);
    RowsEqual(alloc, g.allocation);
    RowsEqual(need, g.need);
  }

  /** Whether every entry of row `i` of `need` is at most the matching entry of `work`. */
  method NeedFits(need: array2<int>, i: int, work: array<int>) returns (needLessThanWork: bool)
    requires 0 <= i < need.Length0 && need.Length1 == work.Length
    ensures needLessThanWork <==> Leq(Rows(need)[i], work[..])
  {
    needLessThanWork := true;
    for j := 0 to need.Length1
      invariant forall k :: 0 <= k < j ==> need[i, k] <= work[k]
    {
      if need[i, j] > work[j] {
        needLessThanWork := false;
        break;
      }
    }
  }

  /**
   * The greedy safety check. Starting from `work` = `available`, it passes
   * over the processes not yet in the safe sequence, admitting (in index
   * order) each whose need fits in `work` and adding its allocation to
   * `work`. A pass that admits nobody answers unsafe; a full sequence
   * answers safe. A "safe" answer always comes with a safe sequence; when
   * no allocation is negative, "unsafe" means that none exists.
   */
  method IsSafeState(available: array<int>, allocation: array2<int>, need: array2<int>) returns (safe: bool)
    requires allocation.Length0 == need.Length0
    requires allocation.Length1 == need.Length1 == available.Length
    ensures safe ==> Safe(StateOf(available, allocation, need))
    ensures NonNegative(Rows(allocation)) ==> (safe <==> Safe(StateOf(available, allocation, need)))
  {
    ghost var st := StateOf(available, allocation, need);
    var work := CopyVector(available);
    var safeSequence: seq<int> := [];
    while true
      invariant SafePrefix(st, safeSequence)
      invariant work[..] == WorkAfter(st.available, st.allocation, safeSequence)
      decreases allocation.Length0 - |safeSequence|
    {
      SafePrefixBounded(st, safeSequence);
      if |safeSequence| == allocation.Length0 {
        CompletePrefixIsSafe(st, safeSequence);
        return true;
      }
      var prevSafeSequenceSize := |safeSequence|;
      ghost var previous := safeSequence;
      for i := 0 to allocation.Length0
        invariant SafePrefix(st, safeSequence)
        invariant work[..] == WorkAfter(st.available, st.allocation, safeSequence)
        invariant previous <= safeSequence && |previous| == prevSafeSequenceSize
        invariant |safeSequence| == prevSafeSequenceSize ==>
          forall q :: 0 <= q < i && q !in safeSequence ==> !Leq(st.need[q], work[..])
      {
        if i !in safeSequence {
          var needLessThanWork := NeedFits(need, i, work);
          if needLessThanWork {
            SafePrefixAppend(st, safeSequence, i);
            WorkAfterAppend(st.available, st.allocation, safeSequence, i);
            work := VectorAdd(work, allocation, i);
            safeSequence := safeSequence + [i];
          }
        }
      }
      if |safeSequence| == prevSafeSequenceSize {
        if NonNegative(st.allocation) {
          StuckImpliesUnsafe(st, safeSequence);
        }
        return false;
      }
    }
  }

  /**
   * The bank. `available` is replaced by a fresh array on release; the
   * three matrices are updated in place.
   */
  class Bank {
    var available: array<int>
    const max: array2<int>
    const allocation: array2<int>
    const need: array2<int>
    /** Units of each resource type in the system, fixed at creation. */
    ghost const total: Vector

    ghost function Current(): State
      reads this, available, allocation, need
    {
      StateOf(available, allocation, need)
    }

    ghost function Max(): Matrix
      reads max
    {
      Rows(max)
    }

    ghost predicate Valid()
      reads this, available, max, allocation, need
    {
      && max.Length0 >= 1
      && allocation.Length0 == max.Length0 && need.Length0 == max.Length0
      && max.Length1 == available.Length
      && allocation.Length1 == available.Length && need.Length1 == available.Length
      && allocation != need && allocation != max && need != max
      && Consistent(Max(), Current())
      && Totals(Current()) == total
    }

    /**
     * A bank for `|max|` processes over `|available|` resource types:
     * nothing allocated yet and every need equal to the maximum.
     */
    constructor (available: seq<int>, max: seq<seq<int>>)
      requires |max| >= 1 && IsMatrix(max, |available|)
      ensures Valid()
      ensures fresh(this.available) && fresh(this.max) && fresh(allocation) && fresh(need)
      ensures Current() == Initial(available, max) && Max() == max && total == available
      ensures Bounded(Current()) <==> NonNegVec(available) && NonNegative(max)
    {
      var P, R := |max|, |max[0]|;
      var n := new int[P, R];
      for i := 0 to P
        modifies n
        invariant forall p, k :: 0 <= p < i && 0 <= k < R ==> n[p, k] == max[p][k]
      {
        for j := 0 to |max[i]|
          modifies n
          invariant forall p, k :: 0 <= p < i && 0 <= k < R ==> n[p, k] == max[p][k]
          invariant forall k :: 0 <= k < j ==> n[i, k] == max[i][k]
        {
          n[i, j] := max[i][j];
        }
      }
      need := n;

      var a := new int[P, R];
      for i := 0 to P
        modifies a
        invariant forall p, k :: 0 <= p < i && 0 <= k < R ==> a[p, k] == 0
      {
        for j := 0 to |max[i]|
          modifies a
          invariant forall p, k :: 0 <= p < i && 0 <= k < R ==> a[p, k] == 0
          invariant forall k :: 0 <= k < j ==> a[i, k] == 0
        {
          a[i, j] := 0;
        }
      }
      allocation := a;
      this.available := new int[|available|](j requires 0 <= j < |available| => available[j]);
      this.max := new int[P, R]((i, j) requires 0 <= i < P && 0 <= j < R => max[i][j]);
      total := available;
      new;

      var init := Initial(available, max);
      assert forall k :: 0 <= k < |available| ==> this.available[k] == available[k];
      assert this.available[..] == available;
      RowsEqual(this.max, max);
      RowsEqual(need, max);
      RowsEqual(allocation, init.allocation);
      InitialInvariants(available, max);
    }

    /** The number of resource types: the width of every need row. */
    function NumResourceTypes(): (r: nat)
      reads this, available, max, allocation, need
      requires Valid()
      ensures r == |total|
      ensures forall p :: 0 <= p < |Current().need| ==> |Current().need[p]| == r
    {
      available.Length
    }

    /** A snapshot of process `workerIndex`'s remaining need: its max less what it holds. */
    function GetNeed(workerIndex: int): (row: Vector)
      reads this, available, max, allocation, need
      requires Valid() && 0 <= workerIndex < max.Length0
      ensures row == Sub(Max()[workerIndex], Current().allocation[workerIndex])
    {
      seq(need.Length1, j requires 0 <= j < need.Length1 reads need => need[workerIndex, j])
    }

    /**
     * Grants `request` to process `index` exactly when the current state is
     * safe and the state after the grant would be safe too; otherwise the
     * state is left as it was.
     */
    method RequestResource(request: seq<int>, index: int) returns (granted: bool)
      requires Valid() && 0 <= index < max.Length0 && |request| == available.Length
      requires forall j :: 0 <= j < |request| ==> 0 <= request[j] <= need[index, j]
      modifies available, allocation, need
      ensures Valid()
      ensures granted <==> Safe(old(Current())) && Safe(Grant(old(Current()), request, index))
      ensures Current() == if granted then Grant(old(Current()), request, index) else old(Current())
      ensures granted ==> Safe(Current())
      ensures old(Bounded(Current())) ==> Bounded(Current())
    {
      ghost var st, mx := Current(), Max();
      ghost var after := Grant(st, request, index);
      assert NonNegVec(request) && Leq(request, st.need[index]);
      assert NonNegative(st.allocation) && NonNegative(after.allocation) by {
        GrantKeepsConsistent(mx, st, request, index);
      }
      granted := false;
      var safeNow := IsSafeState(available, allocation, need);
      assert safeNow <==> Safe(st);
      if safeNow {
        var newAlloc := CopyMatrix(allocation);
        var newAvail := CopyVector(available);
        var newNeed := CopyMatrix(need);
        EffectRequest(request, index, newAvail, newAlloc, newNeed);
        assert StateOf(newAvail, newAlloc, newNeed) == after;
        assert Current() == st;
        var safeAfter := IsSafeState(newAvail, newAlloc, newNeed);
        assert safeAfter <==> Safe(after);
        if safeAfter {
          EffectRequest(request, index, available, allocation, need);
          assert Current() == after && Max() == mx;
          GrantKeepsInvariants(mx, st, request, index);
          granted := true;
        }
      }
    }

    /**
     * Process `index` returns everything it holds: its allocation goes back
     * to `available`, its allocation row becomes zero and its need row is
     * reset to its maximum.
     */
    method DeAllocateResources(index: int)
      requires Valid() && 0 <= index < max.Length0
      modifies this`available, allocation, need
      ensures Valid() && fresh(available)
      ensures Current() == Release(old(Current()), Max()[index], index)
      ensures old(Bounded(Current())) ==> Bounded(Current())
      ensures old(Safe(Current())) ==> Safe(Current())
    {
      ghost var st, mx := Current(), Max();
      assert need != max && allocation != max && allocation != need;
      available := VectorAdd(available, allocation, index);
      for i := 0 to need.Length1
        invariant fresh(available)
        invariant available[..] == Add(st.available, st.allocation[index])
        invariant forall p, k :: 0 <= p < need.Length0 && 0 <= k < need.Length1 ==>
          need[p, k] == if p == index && k < i then mx[p][k] else st.need[p][k]
        invariant forall p, k :: 0 <= p < allocation.Length0 && 0 <= k < allocation.Length1 ==>
          allocation[p, k] == if p == index && k < i then 0 else st.allocation[p][k]
      {
        need[index, i] := max[index, i];
        allocation[index, i] := 0;
      }
      var r := Release(st, mx[index], index);
      RowsEqual(allocation, r.allocation);
      RowsEqual(need, r.need);
      assert Max() == mx;
      ReleaseConservesTotals(st, mx[index], index);
      ReleaseKeepsConsistent(mx, st, index);
      if Bounded(st) {
        ReleaseKeepsBounded(mx, st, index);
      }
      if Safe(st) {
        ReleasePreservesSafety(mx, st, index);
      }
    }
  }
}
