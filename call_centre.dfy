/**
 * The CallCentre object of call_centre.py together with the two Call methods
 * that change it (call.py:56-89). Its fields are the source's attributes;
 * the Call objects live in the table `calls`, indexed by caller uid, and
 * the two queues hold call ids. Every method is proved to leave the state
 * the corresponding function of Engine or Reviews computes from the old one.
 */
module CallCentres {
  import opened Wrappers
  import opened Employees
  import opened Registries
  import opened Calls
  import opened Configs
  import opened Engine
  import opened Reviews

  class CallCentre {
    var employees: Registry
    var calls: seq<CallInfo>
    var activeCalls: seq<CallId>
    var callBacklog: seq<CallId>
    /** `_employee_count` and `_caller_count`, the mimicked database id counters. */
    var employeeCount: nat
    var callerCount: nat
    const config: Config

    /** The centre as a value of the Engine model. */
    function Model(): State
      reads this
    {
      State(employees, calls, activeCalls, callBacklog)
    }

    /** The object invariant: the centre's invariant, and one caller uid per registered call. */
    ghost predicate Valid()
      reads this
    {
      Engine.Valid(Model()) && callerCount == |calls|
    }

    /**
     * `CallCentre.__init__` (call_centre.py:34-57) on a configuration that
     * `__post_init__` accepted: four batches of free employees in tier order,
     * no calls, both queues empty.
     */
    constructor (cfg: Config)
      requires ConfigOk(cfg)
      ensures config == cfg && Valid()
      ensures Model() == Initial(cfg)
      ensures employeeCount == cfg.juniors + cfg.seniors + cfg.managers + cfg.directors
      ensures callerCount == 0
    {
      employeeCount := 0;
      callerCount := 0;
      config := cfg;
      employees := map[];
      calls := [];
      activeCalls := [];
      callBacklog := [];
      new;
      var juniors := CreateEmployeesBatch(cfg.juniors, Junior, true);
      var seniors := CreateEmployeesBatch(cfg.seniors, Senior, true);
      var managers := CreateEmployeesBatch(cfg.managers, Manager, true);
      var directors := CreateEmployeesBatch(cfg.directors, Director, true);
      employees := map[Junior := juniors, Senior := seniors, Manager := managers, Director := directors];
      InitialFromBatches(cfg, juniors, seniors, managers, directors);
    }

    /**
     * `_create_employees_batch` (call_centre.py:120-135): `num` employees of
     * one tier (none when `num` is negative, as with `range`), uids taken
     * from the employee counter, which advances by one per employee.
     */
    method CreateEmployeesBatch(num: int, seniority: Seniority, isFree: bool) returns (out: seq<Employee>)
      modifies this
      ensures out == Batch(seniority, old(employeeCount), if num < 0 then 0 else num, isFree)
      ensures employeeCount == old(employeeCount) + |out|
      ensures Model() == old(Model()) && callerCount == old(callerCount)
    {
      out := [];
      var i := 0;
      while i < num
        invariant 0 <= i <= if num < 0 then 0 else num
        invariant out == Batch(seniority, old(employeeCount), i, isFree)
        invariant employeeCount == old(employeeCount) + i
        invariant Model() == old(Model()) && callerCount == old(callerCount)
      {
        out := out + [Employee(seniority, employeeCount, isFree)];
        employeeCount := employeeCount + 1;
        i := i + 1;
      }
    }

    /**
     * `_register_call` (call_centre.py:137-148): a new unassigned call whose
     * caller uid is the caller counter, which advances. `duration` is the
     * value `random.randint(1, max_call_duration_sec)` drew.
     */
    method RegisterCall(name: string, priority: Priority, duration: int, now: int) returns (id: CallId)
      requires Valid() && 1 <= duration <= config.maxCallDurationSec
      modifies this
      ensures (Model(), id) == Register(old(Model()), config, name, priority, duration, now)
      ensures callerCount == old(callerCount) + 1 && employeeCount == old(employeeCount)
      ensures Valid()
    {
      var caller := Caller(callerCount, name);
      id := callerCount;
      callerCount := callerCount + 1;
      calls := calls + [CallInfo(now, caller, priority, duration, config.callEscalationProb, None, None)];
      RegisterValid(old(Model()), config, name, priority, duration, now);
    }

    /**
     * `Call.assign` (call.py:56-77) on call `id`: refused for an assigned
     * call; otherwise the tiers of the call's order are searched in turn
     * until the call is assigned, and with nobody free it joins the backlog.
     */
    method AssignCall(id: CallId, now: int) returns (r: Outcome<CallError>)
      requires WellFormed(Model()) && id < |calls|
      modifies this
      ensures match Assign(old(Model()), id, now)
              case Success(t) => r == Pass && Model() == t
              case Failure(e) => r == Fail(e) && Model() == old(Model())
      ensures callerCount == old(callerCount) && employeeCount == old(employeeCount)
    {
      if calls[id].assignedTo.Some? {
        return Fail(AlreadyAssigned);
      }
      hide Place, FirstFree, AssignmentOrder, SearchesFor;
      ghost var s := Model();
      var order := AssignmentOrder(calls[id].priority);
      var ti := 0;
      while ti < |order|
        invariant ti <= |order| && id < |calls|
        invariant callerCount == old(callerCount) && employeeCount == old(employeeCount)
        invariant calls[id].assignedTo.None? ==>
          Model() == s && FirstFree(s.employees, order) == FirstFree(s.employees, order[ti..])
        invariant calls[id].assignedTo.Some? ==> Model() == Place(s, id, now)
      {
        if calls[id].assignedTo.Some? {
          break;
        }
        var found := AssignInTier(id, order[ti], now);
        if found {
          PlaceAtTier(s, id, now, ti);
        } else {
          SkipTier(s.employees, order, ti);
        }
        ti := ti + 1;
      }
      if calls[id].assignedTo.None? {
        PlaceNone(s, id, now);
        callBacklog := callBacklog + [id];
      }
      r := Pass;
    }

    /**
     * The inner loop of `Call.assign` (call.py:68-74) over one tier: the
     * first free employee, if any, takes the unassigned call `id`, which
     * records the employee and the time and joins `active_calls`.
     */
    method AssignInTier(id: CallId, tier: Seniority, now: int) returns (found: bool)
      requires WellFormed(Model()) && id < |calls| && calls[id].assignedTo.None?
      modifies this
      ensures found <==> FirstFreeIn(old(employees)[tier], 0).Some?
      ensures found ==>
        var h := Handle(tier, FirstFreeIn(old(employees)[tier], 0).value);
        Model() == old(Model()).(employees := SetFree(old(employees), h, false),
                                 calls := old(calls)[id := old(calls)[id].(assignedTo := Some(h), assignedAt := Some(now))],
                                 active := old(activeCalls) + [id])
      ensures !found ==> Model() == old(Model())
      ensures callerCount == old(callerCount) && employeeCount == old(employeeCount)
    {
      var staff := employees[tier];
      var j := 0;
      while j < |staff|
        invariant j <= |staff|
        invariant Model() == old(Model()) && callerCount == old(callerCount) && employeeCount == old(employeeCount)
        invariant FirstFreeIn(staff, 0) == FirstFreeIn(staff, j)
      {
        if staff[j].isFree {
          calls := calls[id := calls[id].(assignedTo := Some(Handle(tier, j)), assignedAt := Some(now))];
          activeCalls := activeCalls + [id];
          employees := SetFree(employees, Handle(tier, j), false);
          return true;
        }
        j := j + 1;
      }
      return false;
    }

    /**
     * `Call.end` (call.py:79-89) on call `id`: refused for an unassigned
     * call; otherwise the call is unassigned and its employee freed, and a
     * low-priority call whose escalation decision comes out true becomes
     * high priority and is assigned again. `draw` is the outcome of the
     * random draw `_should_escalate` makes when no decision is passed.
     */
    method EndCall(id: CallId, escalate: Option<bool>, draw: bool, now: int) returns (r: Outcome<CallError>)
      requires WellFormed(Model()) && id < |calls|
      modifies this
      ensures match End(old(Model()), id, escalate, draw, now)
              case Success(t) => r == Pass && Model() == t
              case Failure(e) => r == Fail(e) && Model() == old(Model())
      ensures callerCount == old(callerCount) && employeeCount == old(employeeCount)
    {
      var assignee := calls[id].assignedTo;
      if assignee.None? {
        return Fail(NotAssigned);
      }
      ghost var freed := Unassign(Model(), id);
      calls := calls[id := calls[id].(assignedTo := None)];
      employees := SetFree(employees, assignee.value, true);
      assert Model() == freed;
      if calls[id].priority == Low && ShouldEscalate(escalate, draw) {
        calls := calls[id := calls[id].(priority := High)];
        assert Model() == Raise(freed, id);
        // call.py:89 ignores what the re-assignment returns
        var _ := AssignCall(id, now);
      }
      r := Pass;
    }

    /** `dispatch_call` (call_centre.py:59-63): register a call, then assign it. */
    method DispatchCall(name: string, priority: Priority, duration: int, now: int)
      requires Valid() && 1 <= duration <= config.maxCallDurationSec
      modifies this
      ensures Model() == Dispatch(old(Model()), config, name, priority, duration, now)
      ensures Valid()
      ensures callerCount == old(callerCount) + 1 && employeeCount == old(employeeCount)
    {
      var id := RegisterCall(name, priority, duration, now);
      var r := AssignCall(id, now);
      DispatchValid(old(Model()), config, name, priority, duration, now);
    }

    /**
     * `review_active_calls` (call_centre.py:68-84) with one clock reading
     * `now`: every expired call among the entries present at entry is ended
     * and its position recorded; the positions are then popped from the
     * highest down. `draws[ind]` is the random draw of the call at `ind`.
     */
    method ReviewActiveCalls(now: int, escalate: Option<bool>, draws: seq<bool>)
      requires Valid() && |activeCalls| <= |draws|
      modifies this
      ensures Model() == ReviewActive(old(Model()), now, escalate, draws)
      ensures Valid()
      ensures callerCount == old(callerCount) && employeeCount == old(employeeCount)
    {
      ghost var s0 := Model();
      var indsToRemove := EndExpired(now, escalate, draws);
      assert indsToRemove != [] ==> indsToRemove[|indsToRemove| - 1] in indsToRemove;
      PopPositions(indsToRemove);
      ReviewActiveOutcome(s0, now, escalate, draws);
    }

    /**
     * The first loop of `review_active_calls` (call_centre.py:74-79): for
     * each entry present at entry, an expired call is ended and its
     * position recorded.
     */
    method EndExpired(now: int, escalate: Option<bool>, draws: seq<bool>) returns (indsToRemove: seq<nat>)
      requires WellFormed(Model()) && |activeCalls| <= |draws|
      modifies this
      ensures (Model(), indsToRemove) == Sweep(old(Model()), |old(activeCalls)|, 0, [], now, escalate, draws)
      ensures callerCount == old(callerCount) && employeeCount == old(employeeCount)
    {
      ghost var s0 := Model();
      hide End, Release, Place, Sweep;
      var n := |activeCalls|;
      indsToRemove := [];
      var ind := 0;
      while ind < n
        invariant ind <= n <= |activeCalls| && WellFormed(Model())
        invariant Ascending(indsToRemove) && forall p :: p in indsToRemove ==> p < ind
        invariant Sweep(Model(), n, ind, indsToRemove, now, escalate, draws) == Sweep(s0, n, 0, [], now, escalate, draws)
        invariant callerCount == old(callerCount) && employeeCount == old(employeeCount)
      {
        var call := activeCalls[ind];
        assert call in activeCalls;
        if Expired(calls[call], now) {
          SweepExpiredStep(Model(), n, ind, indsToRemove, now, escalate, draws);
          indsToRemove := indsToRemove + [ind];
          var r := EndCall(call, escalate, draws[ind], now);
        } else {
          SweepLiveStep(Model(), n, ind, indsToRemove, now, escalate, draws);
        }
        ind := ind + 1;
      }
      SweepDone(Model(), n, indsToRemove, now, escalate, draws);
    }

    /**
     * The second loop of `review_active_calls` (call_centre.py:81-84): pop
     * each recorded position of `active_calls`. The positions come in
     * ascending order, so the source's `sort(reverse=True)` visits them
     * from the last one back, which is what this loop does.
     */
    method PopPositions(indsToRemove: seq<nat>)
      requires Ascending(indsToRemove)
      requires indsToRemove != [] ==> indsToRemove[|indsToRemove| - 1] < |activeCalls|
      modifies this
      ensures Model() == old(Model()).(active := PopAll(old(activeCalls), indsToRemove))
      ensures callerCount == old(callerCount) && employeeCount == old(employeeCount)
    {
      var k := |indsToRemove|;
      assert indsToRemove[..k] == indsToRemove;
      while k > 0
        invariant k <= |indsToRemove|
        invariant Ascending(indsToRemove[..k])
        invariant k > 0 ==> indsToRemove[k - 1] < |activeCalls|
        invariant PopAll(activeCalls, indsToRemove[..k]) == PopAll(old(activeCalls), indsToRemove)
        invariant Model() == old(Model()).(active := activeCalls)
        invariant callerCount == old(callerCount) && employeeCount == old(employeeCount)
      {
        assert indsToRemove[..k][k - 1] == indsToRemove[k - 1];
        assert indsToRemove[..k][..k - 1] == indsToRemove[..k - 1];
        activeCalls := RemoveAt(activeCalls, indsToRemove[k - 1]);
        k := k - 1;
      }
    }

    /**
     * `review_backlog` (call_centre.py:86-90): as many rounds as the backlog
     * had calls at entry, each popping the head and assigning it, so that a
     * call nobody can take goes back to the tail. In a valid centre no call
     * of the backlog is assigned, so `assign` never raises here.
     */
    method ReviewBacklog(now: int)
      requires Valid()
      modifies this
      ensures Reviews.ReviewBacklog(old(Model()), now).Success?
      ensures Model() == Reviews.ReviewBacklog(old(Model()), now).value
      ensures Valid()
      ensures callerCount == old(callerCount) && employeeCount == old(employeeCount)
    {
      ghost var s0 := Model();
      ValidRetryable(s0);
      RoundsStart(s0, |s0.backlog|, now);
      RetryRounds(now, s0, |callBacklog|);
      ReviewBacklogDone(s0, Model(), now);
    }

    /**
     * The loop of `review_backlog` (call_centre.py:87-90): with `k0` rounds
     * from `s0` left at entry, it runs them all.
     */
    method RetryRounds(now: int, ghost s0: State, k0: nat)
      requires RoundsLeft(s0, k0, Model(), k0, now)
      modifies this
      ensures RoundsLeft(s0, k0, Model(), 0, now)
      ensures callerCount == old(callerCount) && employeeCount == old(employeeCount)
    {
      hide RoundsLeft;
      var i := 0;
      while i < k0
        invariant i <= k0
        invariant RoundsLeft(s0, k0, Model(), k0 - i, now)
        invariant callerCount == old(callerCount) && employeeCount == old(employeeCount)
      {
        RetryBacklogHead(now, s0, k0, k0 - i);
        i := i + 1;
      }
    }

    /**
     * One round of `review_backlog` (call_centre.py:88-90): pop the head of
     * the backlog and assign it. Of the rounds from `s0`, `k - 1` are left
     * after it.
     */
    method RetryBacklogHead(now: int, ghost s0: State, ghost k0: nat, ghost k: nat)
      requires RoundsLeft(s0, k0, Model(), k, now) && k > 0
      modifies this
      ensures RetryHead(old(Model()), now).Success? && Model() == RetryHead(old(Model()), now).value
      ensures RoundsLeft(s0, k0, Model(), k - 1, now)
      ensures callerCount == old(callerCount) && employeeCount == old(employeeCount)
    {
      ghost var t := RetryStep(Model(), k, now);
      PopHeadWellFormed(Model());
      var call := callBacklog[0];
      callBacklog := callBacklog[1..];
      var r := AssignCall(call, now);
    }

    /** `free_staff` (call_centre.py:150-158): the free employees counted tier by tier in key order. */
    method FreeStaff() returns (freeStaff: nat)
      requires TiersPresent(employees)
      ensures freeStaff == NumFree(employees)
      ensures Valid() ==> freeStaff + |activeCalls| == TotalStaff(employees)
    {
      freeStaff := 0;
      var ti := 0;
      while ti < |AllTiers|
        invariant ti <= |AllTiers| && freeStaff == FreeIn(employees, AllTiers[..ti])
      {
        var staff := employees[AllTiers[ti]];
        var j := 0;
        while j < |staff|
          invariant j <= |staff| && freeStaff == FreeIn(employees, AllTiers[..ti]) + CountFree(staff[..j])
        {
          assert staff[..j + 1][..j] == staff[..j];
          if staff[j].isFree {
            freeStaff := freeStaff + 1;
          }
          j := j + 1;
        }
        assert staff[..j] == staff;
        assert AllTiers[..ti + 1][..ti] == AllTiers[..ti];
        ti := ti + 1;
      }
      assert AllTiers[..|AllTiers|] == AllTiers;
      FreeInAllTiers(employees);
    }

    /**
     * `free_staff_detailed` (call_centre.py:160-174): the free employees of
     * each tier, and in `total` (the source's "total" key) their sum.
     */
    method FreeStaffDetailed() returns (freeStaff: map<Seniority, nat>, total: nat)
      requires TiersPresent(employees)
      ensures forall t :: t in freeStaff && freeStaff[t] == CountFree(employees[t])
      ensures total == NumFree(employees)
    {
      var reg := employees;
      freeStaff := ZeroCounters();
      total := 0;
      var ti := 0;
      while ti < |AllTiers|
        invariant ti <= |AllTiers| && total == FreeIn(reg, AllTiers[..ti])
        invariant forall t :: t in freeStaff && freeStaff[t] == TierProgress(reg, t, ti, [])
      {
        freeStaff, total := TallyTier(reg, ti, freeStaff, total);
        assert AllTiers[..ti + 1][..ti] == AllTiers[..ti];
        ti := ti + 1;
      }
      assert AllTiers[..|AllTiers|] == AllTiers;
      FreeInAllTiers(reg);
    }
  }

  /** The first loop of `free_staff_detailed`: a zero counter for every tier. */
  method ZeroCounters() returns (counters: map<Seniority, nat>)
    ensures forall t :: t in counters && counters[t] == 0
  {
    counters := map[];
    var ti := 0;
    while ti < |AllTiers|
      invariant ti <= |AllTiers|
      invariant forall t :: (t in counters <==> TierRank(t) < ti) && (t in counters ==> counters[t] == 0)
    {
      TierRankIndex(ti);
      counters := counters[AllTiers[ti] := 0];
      ti := ti + 1;
    }
  }

  /**
   * One pass of the second loop of `free_staff_detailed`: every free
   * employee of tier number `ti` adds one to that tier's counter and to
   * the total.
   */
  method TallyTier(reg: Registry, ti: nat, counters: map<Seniority, nat>, total: nat)
      returns (counters': map<Seniority, nat>, total': nat)
    requires TiersPresent(reg) && ti < |AllTiers|
    requires forall t :: t in counters && counters[t] == TierProgress(reg, t, ti, [])
    ensures forall t :: t in counters' && counters'[t] == TierProgress(reg, t, ti + 1, [])
    ensures total' == total + CountFree(reg[AllTiers[ti]])
  {
    var tier := AllTiers[ti];
    TierRankIndex(ti);
    var staff := reg[tier];
    counters', total' := counters, total;
    var j := 0;
    while j < |staff|
      invariant j <= |staff| && total' == total + CountFree(staff[..j])
      invariant forall t :: t in counters' && counters'[t] == TierProgress(reg, t, ti, staff[..j])
    {
      assert staff[..j + 1][..j] == staff[..j];
      if staff[j].isFree {
        counters' := counters'[tier := counters'[tier] + 1];
        total' := total' + 1;
      }
      j := j + 1;
    }
    assert staff[..j] == staff;
  }

  /**
   * What the counter of tier `t` holds while `free_staff_detailed` counts
   * tier number `ti` and has visited `seen` of it: the full count for the
   * tiers done, the count so far for this one, zero for the rest.
   */
  function TierProgress(reg: Registry, t: Seniority, ti: nat, seen: seq<Employee>): nat
    requires TiersPresent(reg)
  {
    if TierRank(t) < ti then CountFree(reg[t]) else if TierRank(t) == ti then CountFree(seen) else 0
  }
}
