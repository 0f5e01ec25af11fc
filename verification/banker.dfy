/**
 * The value-level specification of the Banker's-algorithm resource bank:
 * the state (available units, the allocation and need matrices), what it
 * means for that state to be safe, and the two state changes the bank
 * makes (granting a request and releasing a process's allocation).
 *
 * Processes are the rows of the matrices (P of them), resource types the
 * columns (R of them).
 */
module Banker {

  type Vector = seq<int>
  type Matrix = seq<seq<int>>

  /** The bank's mutable state; `max` is fixed at creation and kept apart. */
  datatype State = State(available: Vector, allocation: Matrix, need: Matrix)

  predicate IsMatrix(m: Matrix, cols: int) {
    forall p :: 0 <= p < |m| ==> |m[p]| == cols
  }

  /** Every row has one entry per resource type and there is a need row per process. */
  predicate WellFormed(st: State) {
    && |st.allocation| == |st.need|
    && IsMatrix(st.allocation, |st.available|)
    && IsMatrix(st.need, |st.available|)
  }

  function Add(a: Vector, b: Vector): Vector
    requires |a| == |b|
  {
    seq(|a|, j requires 0 <= j < |a| => a[j] + b[j])
  }

  function Sub(a: Vector, b: Vector): Vector
    requires |a| == |b|
  {
    seq(|a|, j requires 0 <= j < |a| => a[j] - b[j])
  }

  function Zeros(n: nat): Vector {
    seq(n, j => 0)
  }

  /** Componentwise `a <= b`. */
  predicate Leq(a: Vector, b: Vector) {
    |a| == |b| && forall j :: 0 <= j < |a| ==> a[j] <= b[j]
  }

  predicate NonNegVec(v: Vector) {
    forall j :: 0 <= j < |v| ==> v[j] >= 0
  }

  predicate NonNegative(m: Matrix) {
    forall p, j :: 0 <= p < |m| && 0 <= j < |m[p]| ==> m[p][j] >= 0
  }

  predicate Distinct(s: seq<int>) {
    forall k, l :: 0 <= k < l < |s| ==> s[k] != s[l]
  }

  predicate InRange(s: seq<int>, n: int) {
    forall k :: 0 <= k < |s| ==> 0 <= s[k] < n
  }

  function Indices(n: nat): seq<int> {
    seq(n, i => i)
  }

  /** Entry `m[p][j]`, or 0 outside the matrix. */
  function Cell(m: Matrix, p: int, j: int): int {
    if 0 <= p < |m| && 0 <= j < |m[p]| then m[p][j] else 0
  }

  /** Column `j` summed over the rows named in `order`. */
  function RowsSum(m: Matrix, order: seq<int>, j: int): int
    decreases |order|
  {
    if order == [] then 0
    else RowsSum(m, order[..|order| - 1], j) + Cell(m, order[|order| - 1], j)
  }

  /**
   * The work vector once the processes in `finished` have completed and
   * handed back their allocations.
   */
  function WorkAfter(avail: Vector, alloc: Matrix, finished: seq<int>): Vector {
    seq(|avail|, j requires 0 <= j < |avail| => avail[j] + RowsSum(alloc, finished, j))
  }

  /**
   * `order` lists distinct processes, each of which can obtain its whole
   * remaining need from what is available once the processes before it
   * have finished.
   */
  predicate SafePrefix(st: State, order: seq<int>) {
    && InRange(order, |st.need|)
    && Distinct(order)
    && forall k :: 0 <= k < |order| ==>
         Leq(st.need[order[k]], WorkAfter(st.available, st.allocation, order[..k]))
  }

  /** A completion order for every process. */
  predicate IsSafeSequence(st: State, s: seq<int>) {
    |s| == |st.need| && SafePrefix(st, s)
  }

  /** A state is safe when some order lets every process finish. */
  ghost predicate Safe(st: State) {
    exists s :: IsSafeSequence(st, s)
  }

  /** Per resource type, the units available plus the units held by all processes. */
  function Totals(st: State): Vector {
    WorkAfter(st.available, st.allocation, Indices(|st.allocation|))
  }

  /** need == max - allocation, and nothing is held in negative amounts. */
  predicate Consistent(max: Matrix, st: State) {
    && WellFormed(st)
    && |max| == |st.allocation|
    && IsMatrix(max, |st.available|)
    && forall p, j :: 0 <= p < |max| && 0 <= j < |st.available| ==>
         st.need[p][j] == max[p][j] - st.allocation[p][j] && st.allocation[p][j] >= 0
  }

  /** Nobody holds more than its maximum and no resource is overdrawn. */
  predicate Bounded(st: State) {
    NonNegative(st.need) && NonNegVec(st.available)
  }

  /** The state right after creation: nothing allocated, need equal to max. */
  function Initial(avail: Vector, max: Matrix): State {
    State(avail, seq(|max|, p => Zeros(|avail|)), max)
  }

  /** Process `p` receives `request`. */
  function Grant(st: State, request: Vector, p: int): State
    requires WellFormed(st) && 0 <= p < |st.allocation| && |request| == |st.available|
  {
    State(Sub(st.available, request),
          st.allocation[p := Add(st.allocation[p], request)],
          st.need[p := Sub(st.need[p], request)])
  }

  /** Process `p` hands back everything it holds and its need is reset to `maxRow`. */
  function Release(st: State, maxRow: Vector, p: int): State
    requires WellFormed(st) && 0 <= p < |st.allocation| && |maxRow| == |st.available|
  {
    State(Add(st.available, st.allocation[p]),
          st.allocation[p := Zeros(|st.available|)],
          st.need[p := maxRow])
  }

  // ---------------------------------------------------------------------
  // Column sums
  // ---------------------------------------------------------------------

  lemma {:induction false} RowsSumConcat(m: Matrix, u: seq<int>, v: seq<int>, j: int)
    ensures RowsSum(m, u + v, j) == RowsSum(m, u, j) + RowsSum(m, v, j)
    decreases |v|
  {
    if v == [] {
      assert u + v == u;
    } else {
      var v' := v[..|v| - 1];
      assert (u + v)[..|u + v| - 1] == u + v';
      RowsSumConcat(m, u, v', j);
    }
  }

  /** Removing the entry at `i` from `order` takes that row's cell out of the sum. */
  lemma RowsSumRemove(m: Matrix, order: seq<int>, i: int, j: int)
    requires 0 <= i < |order|
    ensures RowsSum(m, order, j) == RowsSum(m, order[..i] + order[i + 1..], j) + Cell(m, order[i], j)
  {
    assert order == order[..i] + ([order[i]] + order[i + 1..]);
    RowsSumConcat(m, order[..i], [order[i]] + order[i + 1..], j);
    RowsSumConcat(m, [order[i]], order[i + 1..], j);
    RowsSumConcat(m, order[..i], order[i + 1..], j);
    assert RowsSum(m, [order[i]], j) == Cell(m, order[i], j) by {
      assert [order[i]][..0] == [];
    }
  }

  /**
   * With no negative entries, summing over a set of distinct rows that is
   * contained in another sequence of rows gives no more than the latter.
   */
  lemma {:induction false} RowsSumMono(m: Matrix, a: seq<int>, b: seq<int>, j: int)
    requires NonNegative(m) && Distinct(a)
    requires forall x :: x in a ==> x in b
    ensures RowsSum(m, a, j) <= RowsSum(m, b, j)
    decreases |b|
  {
    if b == [] {
      DistinctSubsetLength(a, b);
    } else {
      var b' := b[..|b| - 1];
      var x := b[|b| - 1];
      assert b == b' + [x];
      if x in a {
        var i :| 0 <= i < |a| && a[i] == x;
        var a' := a[..i] + a[i + 1..];
        RemovedFromDistinct(a, b', i);
        RowsSumMono(m, a', b', j);
        RowsSumRemove(m, a, i, j);
      } else {
        RowsSumMono(m, a, b', j);
      }
    }
  }

  /**
   * Taking entry `i` out of a distinct sequence whose other values all lie in
   * `b'` leaves a distinct sequence contained in `b'`.
   */
  lemma RemovedFromDistinct(a: seq<int>, b': seq<int>, i: int)
    requires Distinct(a) && 0 <= i < |a|
    requires forall x :: x in a && x != a[i] ==> x in b'
    ensures Distinct(a[..i] + a[i + 1..])
    ensures forall y :: y in a[..i] + a[i + 1..] ==> y in b'
    ensures |a[..i] + a[i + 1..]| == |a| - 1
  {
    var a' := a[..i] + a[i + 1..];
    forall k, l | 0 <= k < l < |a'| ensures a'[k] != a'[l] {
      var k' := if k < i then k else k + 1;
      var l' := if l < i then l else l + 1;
      assert a'[k] == a[k'] && a'[l] == a[l'] && k' < l';
    }
    forall y | y in a' ensures y in b' {
      var k :| 0 <= k < |a'| && a'[k] == y;
      var k' := if k < i then k else k + 1;
      assert a[k'] == y && k' != i;
    }
  }

  /** A sequence of distinct values all found in `b` is no longer than `b`. */
  lemma {:induction false} DistinctSubsetLength(a: seq<int>, b: seq<int>)
    requires Distinct(a)
    requires forall x :: x in a ==> x in b
    ensures |a| <= |b|
    decreases |b|
  {
    if a != [] {
      assert a[0] in a;
    }
    if b == [] {
    } else {
      var b' := b[..|b| - 1];
      var x := b[|b| - 1];
      assert b == b' + [x];
      if x in a {
        var i :| 0 <= i < |a| && a[i] == x;
        var a' := a[..i] + a[i + 1..];
        RemovedFromDistinct(a, b', i);
        DistinctSubsetLength(a', b');
      } else {
        DistinctSubsetLength(a, b');
      }
    }
  }

  /**
   * Replacing row `p` by `r` changes a sum over distinct rows by the
   * difference of the two cells exactly when `p` is among those rows.
   */
  lemma {:induction false} RowsSumUpdate(m: Matrix, p: int, r: Vector, order: seq<int>, j: int)
    requires 0 <= p < |m| && |r| == |m[p]| && 0 <= j < |r|
    requires Distinct(order)
    ensures RowsSum(m[p := r], order, j)
         == RowsSum(m, order, j) + (if p in order then r[j] - m[p][j] else 0)
    decreases |order|
  {
    if order != [] {
      var order' := order[..|order| - 1];
      var x := order[|order| - 1];
      assert order == order' + [x];
      assert Distinct(order');
      RowsSumUpdate(m, p, r, order', j);
      if x == p {
        assert p !in order';
      }
    }
  }

  /** A column sum over an all-zero matrix is zero. */
  lemma {:induction false} RowsSumZeros(m: Matrix, order: seq<int>, j: int)
    requires forall p :: 0 <= p < |m| ==> m[p] == Zeros(|m[p]|)
    ensures RowsSum(m, order, j) == 0
    decreases |order|
  {
    if order != [] {
      RowsSumZeros(m, order[..|order| - 1], j);
    }
  }

  // ---------------------------------------------------------------------
  // The work vector
  // ---------------------------------------------------------------------

  lemma WorkAfterEmpty(avail: Vector, alloc: Matrix)
    ensures WorkAfter(avail, alloc, []) == avail
  {
  }

  /** Finishing one more process adds its allocation row to the work vector. */
  lemma WorkAfterAppend(avail: Vector, alloc: Matrix, finished: seq<int>, p: int)
    requires 0 <= p < |alloc| && |alloc[p]| == |avail|
    ensures WorkAfter(avail, alloc, finished + [p]) == Add(WorkAfter(avail, alloc, finished), alloc[p])
  {
    assert (finished + [p])[..|finished|] == finished;
  }

  /** With non-negative allocations, the work vector only grows as processes finish. */
  lemma WorkMono(avail: Vector, alloc: Matrix, a: seq<int>, b: seq<int>)
    requires NonNegative(alloc) && Distinct(a)
    requires forall x :: x in a ==> x in b
    ensures Leq(WorkAfter(avail, alloc, a), WorkAfter(avail, alloc, b))
  {
    forall j | 0 <= j < |avail|
      ensures WorkAfter(avail, alloc, a)[j] <= WorkAfter(avail, alloc, b)[j]
    {
      RowsSumMono(alloc, a, b, j);
    }
  }

  // ---------------------------------------------------------------------
  // Safety
  // ---------------------------------------------------------------------

  /** A process that can obtain its need from the current work vector extends a safe prefix. */
  lemma SafePrefixAppend(st: State, order: seq<int>, p: int)
    requires SafePrefix(st, order)
    requires 0 <= p < |st.need| && p !in order
    requires Leq(st.need[p], WorkAfter(st.available, st.allocation, order))
    ensures SafePrefix(st, order + [p])
  {
    var order' := order + [p];
    assert order'[..|order|] == order;
    forall k | 0 <= k < |order|
      ensures Leq(st.need[order'[k]], WorkAfter(st.available, st.allocation, order'[..k]))
    {
      assert order'[..k] == order[..k];
    }
  }

  /** A safe prefix that reaches every process is a safe sequence. */
  lemma CompletePrefixIsSafe(st: State, order: seq<int>)
    requires SafePrefix(st, order) && |order| == |st.need|
    ensures Safe(st)
  {
    assert IsSafeSequence(st, order);
  }

  /** A distinct sequence of process indices has at most one entry per process. */
  lemma SafePrefixBounded(st: State, order: seq<int>)
    requires SafePrefix(st, order)
    ensures |order| <= |st.need|
  {
    var all := Indices(|st.need|);
    forall x | x in order ensures x in all {
      var k :| 0 <= k < |order| && order[k] == x;
      assert all[x] == x;
    }
    DistinctSubsetLength(order, all);
  }

  /** Every process of a safe sequence appears in a stuck set of finished processes. */
  lemma {:induction false} SafeSequenceWithinStuck(st: State, done: seq<int>, s: seq<int>, k: nat)
    requires WellFormed(st) && NonNegative(st.allocation)
    requires Distinct(done)
    requires forall p :: 0 <= p < |st.need| && p !in done ==>
               !Leq(st.need[p], WorkAfter(st.available, st.allocation, done))
    requires IsSafeSequence(st, s) && k <= |s|
    ensures forall m :: 0 <= m < k ==> s[m] in done
  {
    if k > 0 {
      SafeSequenceWithinStuck(st, done, s, k - 1);
      var prefix := s[..k - 1];
      assert Distinct(prefix);
      forall x | x in prefix ensures x in done {
        var m :| 0 <= m < k - 1 && s[m] == x;
      }
      WorkMono(st.available, st.allocation, prefix, done);
      assert Leq(st.need[s[k - 1]], WorkAfter(st.available, st.allocation, prefix));
    }
  }

  /**
   * If some processes have not finished and none of them can obtain its need
   * from the work vector, no safe sequence exists at all (allocations being
   * non-negative): the greedy search may stop and answer "unsafe".
   */
  lemma StuckImpliesUnsafe(st: State, done: seq<int>)
    requires WellFormed(st) && NonNegative(st.allocation)
    requires Distinct(done) && |done| < |st.need|
    requires forall p :: 0 <= p < |st.need| && p !in done ==>
               !Leq(st.need[p], WorkAfter(st.available, st.allocation, done))
    ensures !Safe(st)
  {
    if s :| IsSafeSequence(st, s) {
      SafeSequenceWithinStuck(st, done, s, |s|);
      DistinctSubsetLength(s, done);
      assert false;
    }
  }

  /** In a safe state with at least one process and no negative need, nothing is overdrawn. */
  lemma SafeImpliesAvailableNonNegative(st: State)
    requires Safe(st) && |st.need| >= 1 && NonNegative(st.need)
    ensures NonNegVec(st.available)
  {
    var s :| IsSafeSequence(st, s);
    assert s[..0] == [];
    WorkAfterEmpty(st.available, st.allocation);
    assert Leq(st.need[s[0]], st.available);
  }

  // ---------------------------------------------------------------------
  // Grant and release
  // ---------------------------------------------------------------------

  /** Granting moves units from `available` to one process: the totals stay put. */
  lemma GrantConservesTotals(st: State, request: Vector, p: int)
    requires WellFormed(st) && 0 <= p < |st.allocation| && |request| == |st.available|
    ensures Totals(Grant(st, request, p)) == Totals(st)
  {
    var g := Grant(st, request, p);
    var all := Indices(|st.allocation|);
    assert all[p] == p;
    forall j | 0 <= j < |st.available| ensures Totals(g)[j] == Totals(st)[j] {
      RowsSumUpdate(st.allocation, p, Add(st.allocation[p], request), all, j);
    }
  }

  /** Releasing moves one process's units back to `available`: the totals stay put. */
  lemma ReleaseConservesTotals(st: State, maxRow: Vector, p: int)
    requires WellFormed(st) && 0 <= p < |st.allocation| && |maxRow| == |st.available|
    ensures Totals(Release(st, maxRow, p)) == Totals(st)
  {
    var r := Release(st, maxRow, p);
    var all := Indices(|st.allocation|);
    assert all[p] == p;
    forall j | 0 <= j < |st.available| ensures Totals(r)[j] == Totals(st)[j] {
      RowsSumUpdate(st.allocation, p, Zeros(|st.available|), all, j);
    }
  }

  /**
   * A new bank satisfies need == max - allocation, its totals are the units it
   * was created with, and it is within bounds exactly when its inputs are
   * non-negative.
   */
  lemma InitialInvariants(avail: Vector, max: Matrix)
    requires IsMatrix(max, |avail|)
    ensures Consistent(max, Initial(avail, max))
    ensures Totals(Initial(avail, max)) == avail
    ensures Bounded(Initial(avail, max)) <==> NonNegVec(avail) && NonNegative(max)
  {
    var init := Initial(avail, max);
    forall j | 0 <= j < |avail| ensures Totals(init)[j] == avail[j] {
      RowsSumZeros(init.allocation, Indices(|max|), j);
    }
  }

  /** Granting a non-negative request keeps need == max - allocation. */
  lemma GrantKeepsConsistent(max: Matrix, st: State, request: Vector, p: int)
    requires Consistent(max, st) && 0 <= p < |max| && |request| == |st.available|
    requires NonNegVec(request)
    ensures Consistent(max, Grant(st, request, p))
  {
  }

  /** Releasing with the process's own max row keeps need == max - allocation. */
  lemma ReleaseKeepsConsistent(max: Matrix, st: State, p: int)
    requires Consistent(max, st) && 0 <= p < |max|
    ensures Consistent(max, Release(st, max[p], p))
  {
  }

  /**
   * A granted request (one within the process's need whose result is safe)
   * leaves no negative need and nothing overdrawn.
   */
  lemma GrantKeepsBounded(st: State, request: Vector, p: int)
    requires WellFormed(st) && 0 <= p < |st.allocation| && |request| == |st.available|
    requires Bounded(st) && Leq(request, st.need[p])
    requires Safe(Grant(st, request, p))
    ensures Bounded(Grant(st, request, p))
  {
    SafeImpliesAvailableNonNegative(Grant(st, request, p));
  }

  /** Releasing hands back non-negative holdings: nothing becomes overdrawn. */
  lemma ReleaseKeepsBounded(max: Matrix, st: State, p: int)
    requires Consistent(max, st) && Bounded(st) && 0 <= p < |max|
    ensures Bounded(Release(st, max[p], p))
  {
  }

  /**
   * A request within the process's need, once granted, keeps every invariant
   * of the bank: need == max - allocation, the totals, and (when the result is
   * safe) the bounds.
   */
  lemma GrantKeepsInvariants(max: Matrix, st: State, request: Vector, p: int)
    requires Consistent(max, st) && 0 <= p < |max| && |request| == |st.available|
    requires NonNegVec(request) && Leq(request, st.need[p])
    ensures Consistent(max, Grant(st, request, p))
    ensures Totals(Grant(st, request, p)) == Totals(st)
    ensures Bounded(st) && Safe(Grant(st, request, p)) ==> Bounded(Grant(st, request, p))
  {
    GrantConservesTotals(st, request, p);
    GrantKeepsConsistent(max, st, request, p);
    if Bounded(st) && Safe(Grant(st, request, p)) {
      GrantKeepsBounded(st, request, p);
    }
  }

  /** A request of all zeros changes nothing. */
  lemma ZeroRequestIsNoOp(st: State, p: int)
    requires WellFormed(st) && 0 <= p < |st.allocation|
    ensures Grant(st, Zeros(|st.available|), p) == st
  {
    var z := Zeros(|st.available|);
    var g := Grant(st, z, p);
    assert g.available == st.available;
    assert Add(st.allocation[p], z) == st.allocation[p];
    assert Sub(st.need[p], z) == st.need[p];
    assert g.allocation == st.allocation;
    assert g.need == st.need;
  }

  /** Releasing right after a grant is the same as releasing without it. */
  lemma ReleaseUndoesGrant(st: State, request: Vector, maxRow: Vector, p: int)
    requires WellFormed(st) && 0 <= p < |st.allocation| && |request| == |st.available|
    requires |maxRow| == |st.available|
    ensures Release(Grant(st, request, p), maxRow, p) == Release(st, maxRow, p)
  {
    var g := Grant(st, request, p);
    assert Add(g.available, g.allocation[p]) == Add(st.available, st.allocation[p]);
    assert g.allocation[p := Zeros(|st.available|)] == st.allocation[p := Zeros(|st.available|)];
    assert g.need[p := maxRow] == st.need[p := maxRow];
  }

  /**
   * Releasing a process of a fresh bank changes nothing, and neither does a
   * grant to that process followed by its release.
   */
  lemma ReleaseAfterGrantRestoresInitial(avail: Vector, max: Matrix, request: Vector, p: int)
    requires IsMatrix(max, |avail|) && 0 <= p < |max| && |request| == |avail|
    ensures Release(Grant(Initial(avail, max), request, p), max[p], p) == Initial(avail, max)
    ensures Release(Initial(avail, max), max[p], p) == Initial(avail, max)
  {
    var init := Initial(avail, max);
    ReleaseUndoesGrant(init, request, max[p], p);
    assert Add(avail, init.allocation[p]) == avail;
    assert init.allocation[p := Zeros(|avail|)] == init.allocation;
    assert init.need[p := max[p]] == init.need;
  }

  /**
   * Releasing a process's allocation keeps a safe state safe: the same
   * completion order still works, since every process sees at least the
   * work it saw before, and the released process gets back exactly the
   * units that make up its restored need.
   */
  lemma ReleasePreservesSafety(max: Matrix, st: State, p: int)
    requires Consistent(max, st) && 0 <= p < |max|
    requires Safe(st)
    ensures Safe(Release(st, max[p], p))
  {
    var s :| IsSafeSequence(st, s);
    var r := Release(st, max[p], p);
    var R := |st.available|;
    var zero := Zeros(R);
    forall k | 0 <= k < |s|
      ensures Leq(r.need[s[k]], WorkAfter(r.available, r.allocation, s[..k]))
    {
      var before := WorkAfter(st.available, st.allocation, s[..k]);
      var after := WorkAfter(r.available, r.allocation, s[..k]);
      assert Distinct(s[..k]);
      forall j | 0 <= j < R
        ensures after[j] == before[j] + (if p in s[..k] then 0 else st.allocation[p][j])
      {
        RowsSumUpdate(st.allocation, p, zero, s[..k], j);
      }
      assert Leq(st.need[s[k]], before);
      if s[k] == p {
        assert p !in s[..k];
      }
    }
    assert IsSafeSequence(r, s);
  }
}
