/**
 * Concrete states: the five-process, four-resource-type configuration the
 * simulation driver creates, and a two-process bank in which a second
 * request has to be refused.
 */
module Scenario {
  import opened Banker
  import opened ResourceBank

  /** The driver's total units per resource type. */
  const SimulationAvailable: Vector := [3, 14, 11, 12]

  /** The driver's maximum need per process. */
  const SimulationMax: Matrix := [
    [0, 0, 1, 2],
    [1, 7, 5, 0],
    [2, 3, 5, 6],
    [0, 6, 5, 2],
    [0, 6, 5, 6]
  ]

  /** Before anything is granted, the work vector is the available vector whatever has finished. */
  lemma InitialWork(avail: Vector, max: Matrix, finished: seq<int>)
    requires IsMatrix(max, |avail|)
    ensures WorkAfter(avail, Initial(avail, max).allocation, finished) == avail
  {
    forall j | 0 <= j < |avail|
      ensures WorkAfter(avail, Initial(avail, max).allocation, finished)[j] == avail[j]
    {
      RowsSumZeros(Initial(avail, max).allocation, finished, j);
    }
  }

  /** A new bank is safe when every process's maximum fits in what is available. */
  lemma InitialSafeWhenMaxFits(avail: Vector, max: Matrix)
    requires IsMatrix(max, |avail|)
    requires forall p :: 0 <= p < |max| ==> Leq(max[p], avail)
    ensures Safe(Initial(avail, max))
  {
    var st := Initial(avail, max);
    var s := Indices(|max|);
    forall k | 0 <= k < |s| ensures Leq(st.need[s[k]], WorkAfter(st.available, st.allocation, s[..k])) {
      InitialWork(avail, max, s[..k]);
    }
    assert IsSafeSequence(st, s);
  }

  /** The driver's configuration starts out safe. */
  lemma SimulationStartsSafe()
    ensures Safe(Initial(SimulationAvailable, SimulationMax))
  {
    InitialSafeWhenMaxFits(SimulationAvailable, SimulationMax);
  }

  /** After one grant to a new bank, the processes other than the grantee hold nothing. */
  lemma OnlyGranteeHolds(avail: Vector, max: Matrix, request: Vector, p: int, others: seq<int>, j: int)
    requires IsMatrix(max, |avail|) && 0 <= p < |max| && |request| == |avail|
    requires Distinct(others) && p !in others && 0 <= j < |avail|
    ensures RowsSum(Grant(Initial(avail, max), request, p).allocation, others, j) == 0
  {
    var alloc := Grant(Initial(avail, max), request, p).allocation;
    var zeroed := alloc[p := Zeros(|avail|)];
    assert zeroed == Initial(avail, max).allocation;
    RowsSumZeros(zeroed, others, j);
    RowsSumUpdate(zeroed, p, alloc[p], others, j);
    assert zeroed[p := alloc[p]] == alloc;
  }

  /**
   * After one grant to a new bank, once the grantee has finished (and any
   * others, who hold nothing), the work vector is the initial available one.
   */
  lemma GranteeReturnsAll(avail: Vector, max: Matrix, request: Vector, p: int, others: seq<int>)
    requires IsMatrix(max, |avail|) && 0 <= p < |max| && |request| == |avail|
    requires Distinct(others) && p !in others
    ensures var st := Grant(Initial(avail, max), request, p);
      WorkAfter(st.available, st.allocation, [p] + others) == avail
  {
    var st := Grant(Initial(avail, max), request, p);
    assert st.allocation[p] == request;
    forall j | 0 <= j < |avail|
      ensures WorkAfter(st.available, st.allocation, [p] + others)[j] == avail[j]
    {
      OnlyGranteeHolds(avail, max, request, p, others, j);
      RowsSumConcat(st.allocation, [p], others, j);
      assert [p][..0] == [];
    }
  }

  /**
   * From the driver's initial state, any request of process 0 within its
   * need leads to a safe state: process 0 can finish first and hand
   * everything back, after which every other maximum fits.
   */
  lemma SimulationFirstRequestSafe(request: Vector)
    requires |request| == 4
    requires forall j :: 0 <= j < 4 ==> 0 <= request[j] <= SimulationMax[0][j]
    ensures Safe(Grant(Initial(SimulationAvailable, SimulationMax), request, 0))
  {
    var st := Grant(Initial(SimulationAvailable, SimulationMax), request, 0);
    var s := [0, 1, 2, 3, 4];
    assert st.allocation[0] == request;
    assert s[..0] == [];
    WorkAfterEmpty(st.available, st.allocation);
    forall k | 1 <= k < |s|
      ensures WorkAfter(st.available, st.allocation, s[..k]) == SimulationAvailable
    {
      var others := s[1..k];
      assert s[..k] == [0] + others;
      assert 0 !in others && Distinct(others);
      GranteeReturnsAll(SimulationAvailable, SimulationMax, request, 0, others);
    }
    assert IsSafeSequence(st, s);
  }

  /**
   * A new bank asked for `request` by process `p`: it grants exactly when
   * the initial state and the state after the grant are safe, and once `p`
   * has released what it holds the bank is back in its initial state.
   */
  method GrantThenRelease(available: Vector, max: Matrix, request: Vector, p: int)
    returns (bank: Bank, granted: bool)
    requires |max| >= 1 && IsMatrix(max, |available|) && 0 <= p < |max|
    requires |request| == |available|
    requires forall j :: 0 <= j < |request| ==> 0 <= request[j] <= max[p][j]
    ensures granted <==>
      Safe(Initial(available, max)) && Safe(Grant(Initial(available, max), request, p))
    ensures bank.Valid() && bank.Current() == Initial(available, max)
  {
    bank := new Bank(available, max);
    ghost var init := Initial(available, max);
    assert forall j :: 0 <= j < |request| ==> bank.need[p, j] == init.need[p][j];
    granted := bank.RequestResource(request, p);
    bank.DeAllocateResources(p);
    ReleaseAfterGrantRestoresInitial(available, max, request, p);
  }

  /**
   * A new bank asked first by process `p1`, then by another process `p2`.
   * Each answer is the safety test applied to the state the bank is in at
   * that moment, and a refused request leaves that state as it was.
   */
  method TwoRequests(available: Vector, max: Matrix, r1: Vector, p1: int, r2: Vector, p2: int)
    returns (bank: Bank, first: bool, second: bool)
    requires |max| >= 1 && IsMatrix(max, |available|)
    requires 0 <= p1 < |max| && 0 <= p2 < |max| && p1 != p2
    requires |r1| == |available| && |r2| == |available|
    requires forall j :: 0 <= j < |r1| ==> 0 <= r1[j] <= max[p1][j]
    requires forall j :: 0 <= j < |r2| ==> 0 <= r2[j] <= max[p2][j]
    ensures var init := Initial(available, max);
      first <==> Safe(init) && Safe(Grant(init, r1, p1))
    ensures var mid := if first then Grant(Initial(available, max), r1, p1) else Initial(available, max);
      && (second <==> Safe(mid) && Safe(Grant(mid, r2, p2)))
      && bank.Valid()
      && bank.Current() == if second then Grant(mid, r2, p2) else mid
  {
    bank := new Bank(available, max);
    ghost var init := Initial(available, max);
    assert forall j :: 0 <= j < |r1| ==> bank.need[p1, j] == init.need[p1][j];
    first := bank.RequestResource(r1, p1);
    ghost var mid := bank.Current();
    assert mid.need[p2] == max[p2];
    assert forall j :: 0 <= j < |r2| ==> bank.need[p2, j] == mid.need[p2][j];
    second := bank.RequestResource(r2, p2);
  }

  /** The driver's bank grants process 0 the request its worker thread makes, [0,0,1,1]. */
  method SimulationFirstRequest() returns (granted: bool)
    ensures granted
  {
    SimulationStartsSafe();
    SimulationFirstRequestSafe([0, 0, 1, 1]);
    var bank;
    bank, granted := GrantThenRelease(SimulationAvailable, SimulationMax, [0, 0, 1, 1], 0);
  }

  /** Three units of one resource type, two processes that may each need all three. */
  const SmallAvailable: Vector := [3]
  const SmallMax: Matrix := [[3], [3]]

  /** Process 0 holding two units of the small bank: the first grant. */
  function SmallAfterFirst(): State {
    Grant(Initial(SmallAvailable, SmallMax), [2], 0)
  }

  /** The small bank after the first grant, entry by entry. */
  lemma SmallAfterFirstValue()
    ensures SmallAfterFirst() == State([1], [[2], [0]], [[1], [3]])
  {
    var st1 := SmallAfterFirst();
    assert st1.available == [1];
    assert st1.allocation == [[2], [0]] by {
      assert st1.allocation[0] == [2] && st1.allocation[1] == [0];
    }
    assert st1.need == [[1], [3]] by {
      assert st1.need[0] == [1];
    }
  }

  /** Process 0 may finish with the last unit, after which process 1 can too. */
  lemma SmallFirstGrantSafe()
    ensures Safe(Initial(SmallAvailable, SmallMax))
    ensures Safe(SmallAfterFirst())
  {
    InitialSafeWhenMaxFits(SmallAvailable, SmallMax);
    SmallAfterFirstValue();
    var st1 := SmallAfterFirst();
    assert [0, 1][..0] == [] && [0, 1][..1] == [0];
    assert IsSafeSequence(st1, [0, 1]);
  }

  /**
   * Giving process 1 the last unit as well leaves nothing available while
   * each process still needs more, so nobody can finish.
   */
  lemma SecondRequestUnsafe()
    ensures !Safe(Grant(SmallAfterFirst(), [1], 1))
  {
    SmallAfterFirstValue();
    var st2 := Grant(State([1], [[2], [0]], [[1], [3]]), [1], 1);
    assert st2.available == [0];
    assert st2.allocation == [[2], [1]] by {
      assert st2.allocation[1] == [1];
    }
    assert st2.need == [[1], [2]] by {
      assert st2.need[1] == [2];
    }
    WorkAfterEmpty(st2.available, st2.allocation);
    assert st2.need[0][0] > st2.available[0] && st2.need[1][0] > st2.available[0];
    StuckImpliesUnsafe(st2, []);
  }

  /**
   * On the small bank the first request is granted and the second refused,
   * and the refusal leaves the state exactly as the first grant made it.
   */
  method RefusedRequestScenario() returns (first: bool, second: bool)
    ensures first && !second
  {
    SmallFirstGrantSafe();
    SecondRequestUnsafe();
    var bank;
    bank, first, second := TwoRequests(SmallAvailable, SmallMax, [2], 0, [1], 1);
  }
}
